/**
 What a smart playlist selects: a rule on one track row with integers, texts and NULL in it
 (desktop/src/library/smart_playlist.cpp: what compile is for).

 `Says` is the reading of a rule that an author has in mind, by arithmetic and text equality and without the
 compiler's tables.  `WorldOf` is what SQLite makes of the predicates in the emitted SQL on the same row.  The
 emitted fragment has on every row the value that the rule says.
 */
module RowMeaning {
  import opened Wrappers
  import Ordering
  import opened Rules
  import opened Sql
  import opened Compilation
  import opened CompilerCorrectness
  import opened TextOperators
  import Like

  // ----- A row -----

  /** What a column of a row holds. */
  datatype Cell = Missing | Whole(n: int) | Chars(s: string)

  /** A track with the custom tags of the library. */
  datatype Row = Row(cells: map<string, Cell>, tags: seq<TagRow>)

  datatype Relation = Same | Differs | Above | Below | AtLeast | AtMost

  /** What is SQLite's: which characters LIKE takes for equal, what GLOB matches, how an integer reads as text and
      how an integer compares with a text. */
  datatype Engine = Engine(same: (char, char) -> bool, glob: (string, string) -> bool, text: int -> string,
                           mixed: (Relation, Cell, Cell, bool) -> Truth)

  function CellIn(row: Row, column: string): Cell {
    if column in row.cells then row.cells[column] else Missing
  }

  // ----- Comparing cells -----

  /** NOCASE: the capital letters of ASCII count as the small ones. */
  function Folded(s: string, nocase: bool): string {
    if nocase then seq(|s|, i requires 0 <= i < |s| => FoldedLetter(s[i])) else s
  }

  function FoldedLetter(c: char): char {
    if 65 <= c as int <= 90 then (c as int + 32) as char else c
  }

  /** Two integers compare as numbers and two texts byte by byte. */
  function Compares(engine: Engine, relation: Relation, a: Cell, b: Cell, nocase: bool): Truth {
    match (a, b)
    case (Whole(x), Whole(y)) =>
      Truly(match relation
            case Same => x == y case Differs => x != y case Above => x > y
            case Below => x < y case AtLeast => x >= y case AtMost => x <= y)
    case (Chars(s), Chars(t)) =>
      var x, y := Folded(s, nocase), Folded(t, nocase);
      Truly(match relation
            case Same => x == y case Differs => x != y case Above => Ordering.Less(y, x)
            case Below => Ordering.Less(x, y) case AtLeast => !Ordering.Less(x, y) case AtMost => !Ordering.Less(y, x))
    case _ => if a == Missing || b == Missing then Unknown else engine.mixed(relation, a, b, nocase)
  }

  function TextIn(engine: Engine, cell: Cell): string
    requires cell != Missing
  {
    match cell case Whole(n) => engine.text(n) case Chars(s) => s
  }

  /** The cell a bound value is compared as; a truth value is bound as 0 or 1. */
  function CellOf(value: BindValue): Cell {
    match value
    case TextValue(s) => Chars(s)
    case IntegerValue(n) => Whole(n)
    case BooleanValue(b) => Whole(if b then 1 else 0)
  }

  // ----- What SQLite makes of a predicate -----

  function RelationOf(op: Operator): Relation
    requires op != GlobOp
  {
    match op
    case Equal => Same
    case NotEqual => Differs
    case Greater => Above
    case Less => Below
    case GreaterEqual => AtLeast
    case LessEqual => AtMost
  }

  /** At least the one value and at most the other. */
  function Within(engine: Engine, cell: Cell, lo: Cell, hi: Cell, nocase: bool): Truth {
    TAnd(Compares(engine, AtLeast, cell, lo, nocase), Compares(engine, AtMost, cell, hi, nocase))
  }

  /** Among the values; where the comparison with one of them is unknown and none is equal, unknown. */
  ghost function Among(engine: Engine, cell: Cell, values: seq<Cell>, nocase: bool): Truth {
    if exists i | 0 <= i < |values| :: Compares(engine, Same, cell, values[i], nocase) == True then True
    else if forall i | 0 <= i < |values| :: Compares(engine, Same, cell, values[i], nocase) == False then False
    else Unknown
  }

  predicate AreBound(args: seq<Value>) {
    forall i | 0 <= i < |args| :: args[i].Bound?
  }

  function CellsOf(args: seq<Value>): seq<Cell>
    requires AreBound(args)
  {
    seq(|args|, i requires 0 <= i < |args| => CellOf(args[i].value))
  }

  ghost function Judge(engine: Engine, cell: Cell, p: Predicate, args: seq<Value>, nocase: bool): Truth {
    if p == IsNullP then Truly(cell == Missing)
    else if cell == Missing || !AreBound(args) then Unknown
    else
      var cells := CellsOf(args);
      match p
      case BetweenP => if |cells| == 2 then Within(engine, cell, cells[0], cells[1], nocase) else Unknown
      case InP => Among(engine, cell, cells, nocase)
      case LikeP(_) =>
        if |cells| == 1 && cells[0].Chars? then Truly(Like.Matches(cells[0].s, TextIn(engine, cell), engine.same))
        else Unknown
      case Compare(op) =>
        if |cells| != 1 then Unknown
        else if op != GlobOp then Compares(engine, RelationOf(op), cell, cells[0], nocase)
        else if cells[0].Chars? then Truly(engine.glob(cells[0].s, TextIn(engine, cell)))
        else Unknown
      case IsNullP => Unknown
  }

  /** The row as the parser of the emitted SQL sees it: t is the track, ct a row of the tags table. */
  ghost function WorldOf(row: Row, engine: Engine): World {
    World((scope: Scope, column: string, p: Predicate, args: seq<Value>, nocase: bool) =>
            match scope
            case Track =>
              if |column| >= 2 && column[..2] == "t." then Judge(engine, CellIn(row, column[2..]), p, args, nocase)
              else Unknown
            case Tag(r) => if r < |row.tags| then JudgeTag(engine, row.tags[r], column, p, args, nocase) else Unknown,
          |row.tags|)
  }

  ghost function JudgeTag(
      engine: Engine, tag: TagRow, column: string, p: Predicate, args: seq<Value>, nocase: bool): Truth {
    if column == "ct.track_id" && args == [ColumnValue("t.id")] then Truly(tag.ofTrack)
    else if column == "ct.key" then Judge(engine, Chars(tag.key), p, args, nocase)
    else if column == "ct.value" then Judge(engine, Chars(tag.value), p, args, nocase)
    else Unknown
  }

  // ----- What the rule says -----

  /** The column of the tracks table that holds what a field is about. */
  function ColumnOf(field: string): string {
    match field
    case "duration" => "duration_ms"
    case "bitrate" => "bitrate_kbps"
    case "samplerate" => "sample_rate"
    case "bitdepth" => "bit_depth"
    case "islossless" => "is_lossless"
    case "loved" => "is_loved"
    case "playcount" => "play_count"
    case "skipcount" => "skip_count"
    case "lastplayed" => "last_played_at"
    case "added" => "added_at"
    case "key" => "music_key"
    case "path" => "container_path"
    case "filesize" => "file_size"
    case "source" => "source_id"
    case "playlist" => "playlist_id"
    case "missing" => "missing_since"
    case "hasartwork" => "artwork_id"
    case "haslyrics" => "lyrics_id"
    case "rgtrackgain" => "rg_track_gain"
    case _ => field
  }

  /** The fields that are about numbers; the others are about text. */
  predicate IsNumberField(field: string) {
    field in {"year", "tracknumber", "discnumber", "duration", "bitrate", "samplerate", "bitdepth", "channels",
              "islossless", "rating", "loved", "playcount", "skipcount", "lastplayed", "added", "bpm", "filesize",
              "missing", "hasartwork", "haslyrics", "rgtrackgain"}
  }

  /** The value a rule's operand stands for; on the duration field a text with units is its seconds. */
  function Denotes(o: Operand, field: string): Cell {
    match o
    case Number(n) => Whole(n)
    case Flag(b) => Whole(if b then 1 else 0)
    case Text(s) =>
      if field == "duration" && BindOf(o, field).Success? then CellOf(BindOf(o, field).value) else Chars(s)
  }

  function DenoteAll(operands: seq<Operand>, field: string): seq<Cell> {
    seq(|operands|, i requires 0 <= i < |operands| => Denotes(operands[i], field))
  }

  /** A comparison of a field of the track, its own NOT apart. */
  ghost function FieldSays(c: Comparison, cell: Cell, engine: Engine): Truth {
    var nocase := !c.caseSensitive && !IsNumberField(c.field);
    var value := Denotes(c.value, c.field);
    match c.op
    case IsNull => Truly(cell == Missing)
    case IsNotNull => Truly(cell != Missing)
    case Eq => Compares(engine, Same, cell, value, nocase)
    case Ne => Compares(engine, Differs, cell, value, nocase)
    case Gt => Compares(engine, Above, cell, value, nocase)
    case Lt => Compares(engine, Below, cell, value, nocase)
    case Gte => Compares(engine, AtLeast, cell, value, nocase)
    case Lte => Compares(engine, AtMost, cell, value, nocase)
    case Between => Within(engine, cell, Denotes(c.from, c.field), Denotes(c.to, c.field), nocase)
    case In => Among(engine, cell, DenoteAll(c.values, c.field), nocase)
    case Glob =>
      if cell == Missing || !c.value.Text? then Unknown else Truly(engine.glob(c.value.text, TextIn(engine, cell)))
    case _ =>
      if cell == Missing || !c.value.Text? then Unknown
      else Truly(TextTest(c.op, c.value.text, TextIn(engine, cell), engine.same))
  }

  /** What an operator says of the value of a tag. */
  ghost predicate TagPasses(op: FieldOp, text: string, value: string, engine: Engine) {
    if op == Eq || op == Ne then value == text
    else if op == Glob then engine.glob(text, value)
    else TextTest(op, text, value, engine.same)
  }

  /** A comparison of a custom tag: some tag of the track under the key passes, or for `ne` none is equal. */
  ghost function TagSays(c: Comparison, key: string, row: Row, engine: Engine): Truth {
    var found := exists r | 0 <= r < |row.tags| ::
                   row.tags[r].ofTrack && row.tags[r].key == key &&
                   TagPasses(c.op, if c.value.Text? then c.value.text else "", row.tags[r].value, engine);
    Truly(if c.op == Ne then !found else found)
  }

  ghost function ComparisonSays(c: Comparison, row: Row, engine: Engine): Truth {
    var bare := if |c.field| >= 7 && c.field[..7] == "custom:" then TagSays(c, c.field[7..], row, engine)
                else FieldSays(c, CellIn(row, ColumnOf(c.field)), engine);
    if c.negated then Opposite(bare) else bare
  }

  function Opposite(t: Truth): Truth {
    if t == True then False else if t == False then True else Unknown
  }

  /** The rule on a row: an `and` holds when all its children do and fails when one fails, an `or` holds when one
      child does and fails when all fail. */
  ghost function Says(node: Node, row: Row, engine: Engine): Truth
    decreases node
  {
    match node
    case Leaf(c) => ComparisonSays(c, row, engine)
    case Branch(g) =>
      var decisive := if g.op == And then False else True;
      var bare :=
        if exists i | 0 <= i < |g.children| :: Says(g.children[i], row, engine) == decisive then decisive
        else if forall i | 0 <= i < |g.children| :: Says(g.children[i], row, engine) == Opposite(decisive)
        then Opposite(decisive)
        else Unknown;
      if g.negated then Opposite(bare) else bare
  }

  // ----- The two agree -----

  /** The tables of fields: where a field is stored, and whether it is text. */
  lemma FieldTables(field: string)
    ensures field in BuiltinFields() ==> ColumnFor(field) == Some(ColumnOf(field))
    ensures field in BuiltinFields() ==> (IsStringField(field) <==> !IsNumberField(field))
  {
    ColumnTable(field);
    TextFields();
    BuiltinsHaveColumns();
    hide ColumnOf, IsNumberField, BuiltinFields, Columns, IsStringField;
  }

  lemma TextFields()
    ensures forall field | field in BuiltinFields() :: IsStringField(field) <==> !IsNumberField(field)
  {
  }

  lemma ColumnTable(field: string)
    ensures field in Columns() ==> Columns()[field] == ColumnOf(field)
  {
  }

  lemma CustomFields(field: string)
    ensures IsCustom(field) <==> |field| >= 7 && field[..7] == "custom:"
    ensures IsCustom(field) ==> TagKey(field) == field[7..]
  {
    if |field| >= 7 { assert field[..7] == CUSTOM <==> CUSTOM <= field; }
  }

  lemma DenotesBound(o: Operand, field: string)
    requires BindOf(o, field).Success?
    ensures CellOf(BindOf(o, field).value) == Denotes(o, field)
  {
    hide ScanDuration, AfterSign;
  }

  lemma {:induction false} AllDenote(operands: seq<Operand>, field: string)
    requires BindAll(operands, field).Success?
    ensures |BindAll(operands, field).value| == |operands|
    ensures forall i | 0 <= i < |operands| ::
              CellOf(BindAll(operands, field).value[i]) == Denotes(operands[i], field)
    decreases operands
  {
    hide BindOf, Denotes;
    if operands != [] {
      DenotesBound(operands[0], field);
      AllDenote(operands[1..], field);
      var rest := operands[1..];
      assert forall i | 0 < i < |operands| :: operands[i] == rest[i - 1];
    }
  }

  lemma TrackJudges(row: Row, engine: Engine, column: string, p: Predicate, args: seq<Value>, nocase: bool)
    ensures WorldOf(row, engine).judge(Track, "t." + column, p, args, nocase) ==
            Judge(engine, CellIn(row, column), p, args, nocase)
  {
    assert ("t." + column)[..2] == "t." && ("t." + column)[2..] == column;
  }

  lemma BoundCells(values: seq<BindValue>)
    ensures AreBound(AllBound(values)) && |CellsOf(AllBound(values))| == |values|
    ensures forall i | 0 <= i < |values| :: CellsOf(AllBound(values))[i] == CellOf(values[i])
  {
  }

  /** A comparison of a builtin field. */
  lemma FieldAgrees(c: Comparison, row: Row, engine: Engine)
    requires !IsCustom(c.field) && Operands(c).Success?
    ensures ComparisonTruth(c, WorldOf(row, engine)) == ComparisonSays(c, row, engine)
  {
    hide *;
    FieldKnown(c);
    FieldTables(c.field);
    CustomFields(c.field);
    var values, cell := Operands(c).value, CellIn(row, ColumnOf(c.field));
    TrackJudges(row, engine, ColumnOf(c.field), PredicateFor(c.op), AllBound(values), NoCase(c));
    FieldTruth(c, WorldOf(row, engine));
    CollationOf(c);
    BoundCells(values);
    JudgedAsSaid(c, values, cell, engine);
    BareSays(c, row, engine);
  }

  lemma FieldKnown(c: Comparison)
    requires !IsCustom(c.field) && Operands(c).Success?
    ensures c.field in BuiltinFields() && Operands(c) == BuiltinOperands(c)
  {
    BuiltinsHaveColumns();
    hide BuiltinOperands, BuiltinFields, Columns;
  }

  lemma FieldTruth(c: Comparison, world: World)
    requires !IsCustom(c.field) && Operands(c).Success? && ColumnFor(c.field).Some?
    ensures ComparisonTruth(c, world) ==
            Negate(c.negated, Negate(IsNegative(c.op),
                                     world.judge(Track, "t." + ColumnFor(c.field).value, PredicateFor(c.op),
                                                 AllBound(Operands(c).value), NoCase(c))))
  {
    hide Operands, AllBound, PredicateFor, Columns, StringFields;
  }

  lemma CollationOf(c: Comparison)
    requires IsStringField(c.field) <==> !IsNumberField(c.field)
    ensures NoCase(c) <==> !c.caseSensitive && !IsNumberField(c.field) && c.op != IsNull && c.op != IsNotNull
  {
    hide IsNumberField, StringFields;
  }

  lemma BareSays(c: Comparison, row: Row, engine: Engine)
    requires !(|c.field| >= 7 && c.field[..7] == "custom:")
    ensures ComparisonSays(c, row, engine) ==
            Negate(c.negated, FieldSays(c, CellIn(row, ColumnOf(c.field)), engine))
  {
    hide FieldSays, TagSays, ColumnOf;
  }

  lemma NothingToCompare(engine: Engine, nocase: bool)
    ensures forall relation, b: Cell :: Compares(engine, relation, Missing, b, nocase) == Unknown
  {
  }

  lemma JudgedAsSaid(c: Comparison, values: seq<BindValue>, cell: Cell, engine: Engine)
    requires BuiltinOperands(c) == Success(values)
    requires NoCase(c) <==> !c.caseSensitive && !IsNumberField(c.field) && c.op != IsNull && c.op != IsNotNull
    ensures Negate(IsNegative(c.op), Judge(engine, cell, PredicateFor(c.op), AllBound(values), NoCase(c))) ==
            FieldSays(c, cell, engine)
  {
    hide NoCase, IsNumberField, Compares, Like.Matches, BindAll, TextTest, PatternFor, IsStringField, Denotes;
    BoundCells(values);
    NothingToCompare(engine, NoCase(c));
    if IsLike(c.op) {
      if cell != Missing { PatternTests(c.op, c.value.text, TextIn(engine, cell), engine.same); }
    } else if c.op == In {
      AllDenote(c.values, c.field);
      var cells := DenoteAll(c.values, c.field);
      assert CellsOf(AllBound(values)) == cells;
      if cell == Missing { assert Compares(engine, Same, cell, cells[0], NoCase(c)) == Unknown; }
    } else if c.op == Between {
      AllDenote([c.from, c.to], c.field);
    } else if c.op != IsNull && c.op != IsNotNull && c.op != Glob {
      AllDenote([c.value], c.field);
    }
  }

  /** A comparison of a custom tag. */
  lemma TagAgrees(c: Comparison, row: Row, engine: Engine)
    requires IsCustom(c.field) && Operands(c).Success?
    ensures ComparisonTruth(c, WorldOf(row, engine)) == ComparisonSays(c, row, engine)
  {
    hide Judge, Like.Matches, TextTest, PatternFor, BuiltinOperands;
    CustomFields(c.field);
    var world, key := WorldOf(row, engine), TagKey(c.field);
    var values := [TextValue(key), TextValue(PatternFor(c.op, c.value.text))];
    assert Operands(c).value == values;
    forall r: nat | r < |row.tags|
      ensures TagRowMatches(c.op, values, world, r) <==>
              row.tags[r].ofTrack && row.tags[r].key == key &&
              TagPasses(c.op, c.value.text, row.tags[r].value, engine)
    {
      TagRowAgrees(c.op, key, c.value.text, row, engine, r);
    }
    hide TagRowMatches, TagPasses, WorldOf;
    assert world.tagRows == |row.tags| by { RowCount(row, engine); }
  }

  lemma RowCount(row: Row, engine: Engine)
    ensures WorldOf(row, engine).tagRows == |row.tags|
  {
  }

  lemma TagRowAgrees(op: FieldOp, key: string, text: string, row: Row, engine: Engine, r: nat)
    requires r < |row.tags| && (op == Eq || op == Ne || op == Glob || IsLike(op))
    ensures TagRowMatches(op, [TextValue(key), TextValue(PatternFor(op, text))], WorldOf(row, engine), r) <==>
            row.tags[r].ofTrack && row.tags[r].key == key && TagPasses(op, text, row.tags[r].value, engine)
  {
    var tag, pattern := row.tags[r], PatternFor(op, text);
    BoundCells([TextValue(key)]);
    BoundCells([TextValue(pattern)]);
    assert AllBound([TextValue(key)]) == [Bound(TextValue(key))];
    assert AllBound([TextValue(pattern)]) == [Bound(TextValue(pattern))];
    if IsLike(op) { PatternTests(op, text, tag.value, engine.same); }
    hide PatternFor, TextTest, Like.Matches;
  }

  lemma ComparisonAgrees(c: Comparison, row: Row, engine: Engine)
    requires Operands(c).Success?
    ensures ComparisonTruth(c, WorldOf(row, engine)) == ComparisonSays(c, row, engine)
  {
    hide *;
    if IsCustom(c.field) { TagAgrees(c, row, engine); } else { FieldAgrees(c, row, engine); }
  }

  // ----- Whole rules -----

  lemma {:induction false} NodeAgrees(node: Node, row: Row, engine: Engine)
    requires Emit(node).Success?
    ensures NodeTruth(node, WorldOf(row, engine)) == Says(node, row, engine)
    decreases node, 1
  {
    match node {
      case Leaf(c) =>
        hide ComparisonTruth, ComparisonSays, Operands, TokensOf;
        ComparisonAgrees(c, row, engine);
      case Branch(g) =>
        EmitBranch(g);
        NodesAgree(g.children, g.op, row, engine);
        hide Emit, EmitNodes, NodesTruth;
    }
  }

  /** The conjunction, taken step by step, is decided by one child or by all of them. */
  lemma {:induction false} NodesAgree(nodes: seq<Node>, op: Conjunction, row: Row, engine: Engine)
    requires EmitNodes(nodes, op).Success?
    ensures var decisive := if op == And then False else True;
            var truth := NodesTruth(nodes, op, WorldOf(row, engine));
      && (truth == decisive <==> exists i | 0 <= i < |nodes| :: Says(nodes[i], row, engine) == decisive)
      && (truth == Opposite(decisive) <==>
          forall i | 0 <= i < |nodes| :: Says(nodes[i], row, engine) == Opposite(decisive))
    decreases nodes, 0
  {
    hide EmitNodes, Emit, NodeTruth, Says;
    if nodes != [] {
      BindsStep(nodes, op);
      NodeAgrees(nodes[0], row, engine);
      NodesAgree(nodes[1..], op, row, engine);
      var rest := nodes[1..];
      assert forall i | 0 <= i < |rest| :: rest[i] == nodes[i + 1];
      assert forall i | 0 < i < |nodes| :: nodes[i] == rest[i - 1];
    }
  }

  /** What compile is for: on every row, whatever its columns and tags hold, the emitted fragment with its
      parameters has the value that the rule says. */
  lemma CompiledQuerySelects(rule: PlaylistRule, query: CompiledQuery, row: Row, engine: Engine)
    requires CompileResult(rule) == Success(query) && NoEmptyGroup(Branch(rule.root))
    ensures ParseWhere(query.filter).Some?
    ensures Eval(ParseWhere(query.filter).value.value, query.params, WorldOf(row, engine), Track) ==
            Says(Branch(rule.root), row, engine)
  {
    CompiledQueryMeansRule(rule, query);
    hide ParseWhere, Eval, NodeTruth, Says, OrderBy;
    NodeAgrees(Branch(rule.root), row, engine);
  }

  /** On a column that holds the integer x, written out: the six operators with a number, and between. */
  lemma NumberOperators(c: Comparison, row: Row, engine: Engine, x: int, v: int, w: int)
    requires !IsCustom(c.field) && !c.negated && Operands(c).Success? && CellIn(row, ColumnOf(c.field)) == Whole(x)
    requires if c.op == Between then c.from == Number(v) && c.to == Number(w) else c.value == Number(v)
    ensures var truth := ComparisonTruth(c, WorldOf(row, engine)) == True;
      && (c.op == Eq ==> (truth <==> x == v))
      && (c.op == Ne ==> (truth <==> x != v))
      && (c.op == Gt ==> (truth <==> x > v))
      && (c.op == Lt ==> (truth <==> x < v))
      && (c.op == Gte ==> (truth <==> x >= v))
      && (c.op == Lte ==> (truth <==> x <= v))
      && (c.op == Between ==> (truth <==> v <= x <= w))
  {
    FieldAgrees(c, row, engine);
    CustomFields(c.field);
    BareSays(c, row, engine);
    hide ComparisonTruth, ComparisonSays, WorldOf, Operands, ColumnOf, IsNumberField, TextTest;
  }
}

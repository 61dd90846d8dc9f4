/**
 The rule model of smart playlists (desktop/src/library/smart_playlist.hpp) and the closed sets of field
 names its parser and compiler pick from (desktop/src/library/smart_playlist.cpp).
 */
module Rules {
  import opened Wrappers

  datatype Operand = Text(text: string) | Number(number: int) | Flag(flag: bool)

  const NO_OPERAND := Text("")

  datatype FieldOp =
    | Eq | Ne | Gt | Lt | Gte | Lte
    | Contains | NotContains | StartsWith | EndsWith | Glob
    | Between | In | IsNull | IsNotNull

  datatype Comparison = Comparison(
    field: string, op: FieldOp, negated: bool, caseSensitive: bool,
    value: Operand, from: Operand, to: Operand, values: seq<Operand>)

  datatype Conjunction = And | Or

  datatype Group = Group(op: Conjunction, negated: bool, children: seq<Node>)

  /** A node of the rule tree. */
  datatype Node = Branch(group: Group) | Leaf(comparison: Comparison)

  datatype Direction = Asc | Desc

  datatype OrderTerm = OrderTerm(field: string, direction: Direction)

  datatype PlaylistRule = PlaylistRule(
    name: string, description: string, root: Group, orderBy: seq<OrderTerm>, limit: Option<int>, autoRefresh: bool)

  // ----- Fields -----

  const CUSTOM := "custom:"

  predicate IsCustom(field: string) {
    CUSTOM <= field
  }

  function BuiltinFields(): set<string> {
    {"title", "artist", "albumartist", "album", "genre", "composer", "comment", "grouping",
     "year", "date", "tracknumber", "discnumber", "duration", "bitrate", "samplerate", "bitdepth",
     "channels", "codec", "container", "islossless", "rating", "loved", "playcount", "skipcount",
     "lastplayed", "added", "bpm", "key", "path", "filename", "filesize", "source",
     "playlist", "missing", "hasartwork", "haslyrics", "rgtrackgain"}
  }

  function StringFields(): set<string> {
    {"title", "artist", "albumartist", "album", "genre", "composer", "comment", "grouping",
     "date", "codec", "container", "key", "path", "filename", "source", "playlist"}
  }

  /** The tracks-table column of a builtin field; no entry for anything else. */
  function Columns(): map<string, string> {
    map["title" := "title", "artist" := "artist", "albumartist" := "albumartist", "album" := "album",
        "genre" := "genre", "composer" := "composer", "comment" := "comment", "grouping" := "grouping",
        "year" := "year", "date" := "date", "tracknumber" := "tracknumber", "discnumber" := "discnumber",
        "duration" := "duration_ms", "bitrate" := "bitrate_kbps", "samplerate" := "sample_rate",
        "bitdepth" := "bit_depth", "channels" := "channels", "codec" := "codec", "container" := "container",
        "islossless" := "is_lossless", "rating" := "rating", "loved" := "is_loved", "playcount" := "play_count",
        "skipcount" := "skip_count", "lastplayed" := "last_played_at", "added" := "added_at", "bpm" := "bpm",
        "key" := "music_key", "path" := "container_path", "filename" := "filename", "filesize" := "file_size",
        "source" := "source_id", "playlist" := "playlist_id", "missing" := "missing_since",
        "hasartwork" := "artwork_id", "haslyrics" := "lyrics_id", "rgtrackgain" := "rg_track_gain"]
  }

  function ColumnFor(field: string): Option<string> {
    if field in Columns() then Some(Columns()[field]) else None
  }

  predicate IsStringField(field: string) {
    field in StringFields()
  }

  /** Every field the parser accepts as builtin has a column, and nothing else has. */
  lemma BuiltinsHaveColumns()
    ensures Columns().Keys == BuiltinFields()
    ensures StringFields() <= BuiltinFields()
  {
  }

  /** No group in the tree is empty. */
  predicate NoEmptyGroup(node: Node) {
    match node
    case Leaf(_) => true
    case Branch(group) => group.children != [] && NoneEmpty(group.children)
  }

  predicate NoneEmpty(nodes: seq<Node>) {
    forall i | 0 <= i < |nodes| :: NoEmptyGroup(nodes[i])
  }
}

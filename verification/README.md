# Arrow desktop player: a verified model of its core logic

The project models the parts of the desktop player whose correctness is hardest to see from the code, and
proves what they are for.

- **Text kernel** (`Utf8`, `Numbers`, `Glob`, `GlobPatterns`, `EditDistance`, `UnrestrictedDistance`, `Paths`): the UTF-8 codec
  with U+FFFD recovery against the grammar of RFC 3629; trimming and the overflow-exact integer parser; the glob
  matcher that keeps only its last star; the bounded optimal-string-alignment distance over three rolling rows,
  and exactly where it is the documented Damerau-Levenshtein distance; the relative-path normaliser and the
  separate safety predicate. Each loop of the source is a Dafny loop, proved equal to a recursive definition
  whose meaning is proved separately.
- **Smart playlists** (`Rules`, `RuleJson`, `RuleSchema`, `RuleRefusals`, `SchemaStorage`, `RuleJsonRoundTrip`,
  `RuleStorage`, `RuleLimits`, `CrowdedRule`, `Doubles`, `Compilation`, `CompileErrors`, `CompilerCorrectness`,
  `TextOperators`, `RowMeaning`, `Sql`, `Like`): JSON to rule tree and back, and rule tree to a WHERE fragment with
  positional parameters. Parsing a document is compared with the published schema of the format. The fragment is a
  token sequence; `Sql` parses it with SQL's precedence and evaluates it with three-valued logic over arbitrary
  rows, and the compiler is proved to preserve the meaning of the tree. `RowMeaning` states that meaning without
  the compiler's tables, on rows of integers, texts and NULL. `Like` proves the escaping of LIKE patterns for an
  arbitrary character equivalence.
- **JSON text** (`JsonValues`, `JsonText`, `JsonParser`, `JsonRoundTrip`, `JsonGrammar`, `JsonReading`,
  `JsonLanguage`, `JsonEscapes`, `JsonFaults`): the writer and the hardened parser, byte by byte, with comments,
  escapes, surrogate pairs and the depth, element and size limits. `JsonGrammar` is the language in characters,
  without a look at the parser; `JsonLanguage` proves that the parser accepts exactly it. Rules are stored as such
  text, so `RuleStorage` states their round trip on bytes. Printing and reading a number are the C library's; they
  are parameters, with the C standard's promise for the integers a rule holds (`Faithful`).
- **State machines** (`WriteQueue`, `ChangeLog`, `ChangeLogReader`, `Lifecycle`, `Migrations`, `Scanner`): the
  single-writer job queue, the Lamport clock and its paged reader, start-up and tear-down of the application,
  the migration runner under failures, and the library diff together with the table it is written back to. The
  concurrent ones are machines over the source's critical sections, and the theorems speak of every
  interleaving.

A class stands for each source object whose methods update its fields; each of its methods is proved equal to
a step of the machine or to a function of the old state. `dafny verify dfyconfig.toml` checks the project.

Where the code does not do everywhere what one would expect of it, the result is an exact condition, and a
lemma gives an input at which it fails:

| condition | input |
|---|---|
| `Glob.SearchIsMatching` | `Glob.StarRefusesStarText` |
| `CompilerCorrectness.CompiledQueryMeansRule` | `CompilerCorrectness.EmptyGroupIsNoSql` |
| `UnrestrictedDistance.AgreesExactly` | `UnrestrictedDistance.TwoEditsNotThree` |
| `CompileErrors.ReasonLostExactly` | `CompileErrors.MalformedDurationIsUnknown` |
| `Compilation.DurationUnits` | `Compilation.ThreeMinutes` |
| `TextOperators.TagNotContains` | `TextOperators.TwoTagsContainAndNot` |
| `RuleSchema.ConformsExactly` | `RuleSchema.ForeignMember` |
| `RuleStorage.SurvivesStorage` | `RuleLimits.DeepRuleIsLost` |
| `RuleStorage.LoadedRuleSurvives` | `RuleLimits.GrownRuleIsLost`, `CrowdedRule.CrowdedRuleIsLost` |
| `ChangeLog.FreshExactlyWhenCaughtUp`, `ChangeLog.PagingExactly` | `ChangeLog.UnsyncedClockRepeats` |
| `ChangeLog.LateExactlyWhenPending`, `ChangeLogReader.PageStandsExactly` | `ChangeLog.LateEntry` |
| `Scanner.SettledExactly` | `Scanner.DeletedRowStaysNew` |

Where code and documentation disagree the model follows the code:

- `edit_distance` is documented as Damerau-Levenshtein (desktop/src/core/text.hpp:144-146) but never edits a
  character twice; the two agree for all texts exactly when the caller's bound is 0 or 1
  (`UnrestrictedDistance.AgreesExactly`).
- `compile` is documented to name the offending field (desktop/src/library/smart_playlist.hpp:118-121), but
  `push_bind` does not store its error (desktop/src/library/smart_playlist.cpp:954-960, 968-974): an unknown error
  is reported exactly when the first comparison that fails has a malformed duration
  (`CompileErrors.ReasonLostExactly`).
- A duration literal is bound in seconds, and its sign is dropped, while the column it is compared with holds
  milliseconds, as the tests expect of numbers (desktop/tests/unit/test_smart_playlist.cpp:524-533):
  `Compilation.DurationIsSeconds`, `Compilation.DurationUnits`.
- `parse_rule_json` accepts documents that the published schema refuses
  (shared-spec/schemas/smart-playlist.schema.json), for one those with members the format does not know; it accepts
  all that conform (`RuleSchema.ConformsExactly`).
- `glob_match` tries a literal match before it looks for `*`, so the pattern `*` refuses the subject `*a`
  (`Glob.StarRefusesStarText`).

## Model

| member | source | states |
|---|---|---|
| `Utf8.ScalarOfEncode` | desktop/src/core/text.cpp:103-120 | decoding the bytes written for any Unicode scalar value gives that scalar back |
| `Utf8.EncodeScalarOf` | desktop/src/core/text.cpp:103-120 | encoding the scalar of any well-formed sequence of section 4 of RFC 3629 gives that sequence back: overlong forms, surrogates and values past U+10FFFF have no encoding |
| `Utf8.LeadLengthUnique` | desktop/src/core/text.cpp:27-88 | at most one prefix of a byte string is a well-formed sequence, and it is the one the decoder takes |
| `Utf8.DecodeUtf8` | desktop/src/core/text.cpp:27-88 | the decoder yields the scalar of the well-formed sequence at the position and moves past it, or U+FFFD and moves one byte; at the end it yields 0 and stays |
| `Utf8.EncodeUtf8` | desktop/src/core/text.cpp:103-120 | appends exactly the encoding of a scalar value, and that of U+FFFD for anything else |
| `Utf8.CodePointsOfEncodeAll` | desktop/src/core/text.cpp:27-120 | walking the concatenated encodings of any scalars yields those scalars: the encoding is a prefix code |
| `Utf8.EncodeAllOfCodePoints` | desktop/src/core/text.cpp:27-120 | decoding and encoding again gives the same bytes exactly for well-formed text |
| `Utf8.IsValidUtf8` | desktop/src/core/text.cpp:90-101 | accepts exactly the concatenations of well-formed sequences, a genuine U+FFFD included |
| `Utf8.CutSplitsWalk` | desktop/src/core/text.cpp:131-150 | for every byte string, malformed included, cutting at a code-point offset splits the decode walk in two |
| `Utf8.CutKeepsUtf8` | desktop/src/core/text.cpp:131-150 | a cut of well-formed text at such an offset leaves two well-formed halves |
| `Utf8.Utf8Length` | desktop/src/core/text.cpp:122-129 | the number of steps of the decode walk |
| `Utf8.Utf8OffsetOf` | desktop/src/core/text.cpp:131-138 | the byte offset of the n-th code point, or the end |
| `Utf8.Utf8Substr` | desktop/src/core/text.cpp:140-150 | the bytes between two code-point offsets |
| `Utf8.SubstrPoints` | desktop/src/core/text.cpp:140-150 | the code points of a substring are the requested window of the whole, and well-formed text stays well-formed |
| `Utf8.SubstrSplits` | desktop/src/core/text.cpp:122-150 | for every byte string and index the two substrings concatenate to the whole and their lengths add up |
| `Utf8.SanitizeUtf8` | desktop/src/core/text.cpp:152-161 | the encodings of the code points of the walk, in order |
| `Utf8.SanitizeMeaning` | desktop/src/core/text.cpp:122-161 | sanitised text is well-formed, has the same code points and so the same length, sanitises to itself, and equals the input exactly when that was well-formed |
| `Utf8.EncodedLength` | desktop/src/core/text.cpp:103-120 | one byte up to U+007F, two up to U+07FF, three up to U+FFFF, four above, each with the lead byte of its length |
| `Utf8.ByteOrder` | desktop/src/core/text.cpp:103-120 | of two scalars the lower one has the lower bytes in lexicographic order, which section 1 of RFC 3629 promises |
| `Utf8.Examples` | desktop/src/core/text.cpp:103-120 | the bytes of U+FFFD and of the examples in section 7 of RFC 3629 |
| `Utf8.MalformedStep` | desktop/src/core/text.cpp:27-88 | where no well-formed sequence stands the decoder yields U+FFFD and moves one byte |
| `Numbers.TrimBytes` | desktop/src/core/text.cpp:373-397 | both trimming loops on bytes, the right one finding its code point backwards |
| `Numbers.TrimMeaning` | desktop/src/core/text.cpp:355-397 | on well-formed text trimming drops exactly the leading and trailing space code points |
| `Numbers.SpaceMeaning` | desktop/src/core/text.cpp:355-371 | what is trimmed is Unicode's White_Space but for U+0085, U+1680, U+202F and U+205F |
| `Numbers.ParseInt` | desktop/src/core/text.cpp:583-618 | accepts the trimmed text exactly when it is an optionally signed digit string whose mathematical value is an int64, and returns that value; all arithmetic is in uint64 and int64 |
| `Numbers.Int64Range` | desktop/src/core/text.cpp:583-618 | what fits is -9223372036854775808 to 9223372036854775807 |
| `Numbers.ParsesDecimal` | desktop/src/core/text.cpp:583-618 | the decimal printing of every integer trims to itself, is an integer text and has that value, so parsing inverts printing down to INT64_MIN |
| `Numbers.SignedDigits` | desktop/src/core/text.cpp:583-618 | a digit string has the value of its places, bare or behind a plus, and the negated one behind a minus |
| `Glob.StarUnfolds` | desktop/src/core/text.cpp:700-710 | a star in the pattern relation stands for nothing or takes one more character |
| `Glob.LaterStarSubsumes` | desktop/src/core/text.cpp:669-712 | the exchange argument: whatever an earlier star could still match from a restart, the star just reached matches |
| `Glob.NoRestartAtEnd` | desktop/src/core/text.cpp:669-715 | once the subject is used up no restart from the last star can succeed |
| `Glob.SearchFindsMatch` | desktop/src/core/text.cpp:669-715 | at every point of the search on star-free text it succeeds exactly when the rest matches or a restart does |
| `Glob.SearchIsMatching` | desktop/src/core/text.cpp:658-715 | the matcher decides the pattern relation for all patterns exactly when the subject has no star character |
| `Glob.AnswerIsMatching` | desktop/src/core/text.cpp:658-715 | on a star-free subject the answer is the recursive meaning: literals, `?`, `*`, classes with ranges, negation and a leading bracket, and an unterminated class matching nothing |
| `Glob.StarRefusesStarText` | desktop/src/core/text.cpp:695-704 | pattern `*` on subject `*a` is refused although the relation holds |
| `Glob.MatchClass` | desktop/src/core/text.cpp:670-694 | the class loop finds the class's end and decides membership, and says when the class is unterminated |
| `Glob.GlobMatch` | desktop/src/core/text.cpp:658-715 | the index loop returns what the search returns, for all inputs, within \|pattern\| + \|subject\| * (\|subject\| + 2) rounds |
| `GlobPatterns.PatternMeaning` | desktop/src/core/text.cpp:658-715 | from the text of any pattern made of letters, `?`, `*` and classes of characters and ranges, negated by either mark, the matcher decides on every star-free subject what the parts mean in terms of character codes: letters the same or, without case, the same of A-Z and a-z; ranges in the order of char, signed or not |
| `GlobPatterns.PlainPattern` | desktop/src/core/text.cpp:665-704 | a pattern of plain letters matches itself alone when case matters, and otherwise the texts with the same letters in either case |
| `GlobPatterns.UnclosedMatchesNothing` | desktop/src/core/text.cpp:670-694 | a pattern that goes over into a class without its closing bracket matches nothing |
| `EditDistance.NoCheaperAlignment` | desktop/src/core/text.cpp:727-739 | no list of edits that turns one prefix into the other, editing no character twice, costs less than the recurrence |
| `EditDistance.CheapestAlignment` | desktop/src/core/text.cpp:727-739 | some such list costs exactly that much |
| `EditDistance.LengthBound` | desktop/src/core/text.cpp:720-723 | the distance is at least the difference in length, which justifies the first early exit |
| `EditDistance.NextRowExceeds` | desktop/src/core/text.cpp:734-740 | a row above the bound forces the next row above it although the transposition reads two rows back |
| `EditDistance.LastRowExceeds` | desktop/src/core/text.cpp:740-744 | once a whole row exceeds the bound so does the distance: the second early exit |
| `EditDistance.BoundedDistance` | desktop/src/core/text.cpp:717-745 | returns the optimal-string-alignment distance when it is at most the bound and the bound plus one otherwise |
| `EditDistance.FillRow` | desktop/src/core/text.cpp:729-739 | fills the current row in place from the two before it and returns its minimum |
| `EditDistance.ZeroMeansEqual` | desktop/src/core/text.cpp:717-745 | distance zero means equal texts, both ways |
| `EditDistance.Symmetric` | desktop/src/core/text.cpp:717-745 | the distance does not depend on the order of the texts |
| `EditDistance.RestrictedDistance` | desktop/src/core/text.cpp:734-736 | three values that break the triangle inequality: CA to AC and AC to ABC cost one each, CA to ABC three |
| `UnrestrictedDistance.OneEditCosts` | desktop/src/core/text.cpp:727-739 | a single insertion, deletion, substitution or transposition anywhere costs at most one |
| `UnrestrictedDistance.RestrictedReaches` | desktop/src/core/text.cpp:717-745 | a chain of as many single edits as the distance computed, each free to touch what earlier ones changed, turns one text into the other: the documented distance is never larger |
| `UnrestrictedDistance.TriangleInequality` | desktop/src/core/text.hpp:144-146 | the documented distance, the least number of edits in such a chain, satisfies the triangle inequality |
| `UnrestrictedDistance.SmallDistancesAgree` | desktop/src/core/text.cpp:717-745 | when either distance is at most one the two are equal |
| `UnrestrictedDistance.AgreesExactly` | desktop/src/core/text.cpp:717-745 | cut off at the caller's bound the distance computed is the documented one for all texts exactly when the bound is 0 or 1 |
| `UnrestrictedDistance.TwoEditsNotThree` | desktop/src/core/text.cpp:734-736 | CA to ABC is two edits apart by the documented distance and three by the one computed |
| `Paths.ResolvesExactly` | desktop/src/core/text.cpp:801-816 | the segment stack never underflows exactly when no prefix of the path climbs above its start |
| `Paths.IsUnsafeRelativePath` | desktop/src/core/text.cpp:751-776 | true exactly for the paths that are empty, rooted, with a drive, too long, with a control character or with a `..` segment |
| `Paths.ResolveSegments` | desktop/src/core/text.cpp:801-815 | the segment loop with its stack yields the stack reading of the split path, and fails where it fails |
| `Paths.NormalizeRelativePath` | desktop/src/core/text.cpp:778-829 | accepts exactly where the specification does and leaves its value, or the empty string, in the output |
| `Paths.SplitOfJoin` | desktop/src/core/text.cpp:801-820 | joining a stack of names and splitting again gives the stack |
| `Paths.AcceptedExactly` | desktop/src/core/text.cpp:778-829 | a path is accepted exactly when it is clean at the front, its stack never underflows and ends non-empty, and the joined stack is neither too long nor drive-prefixed; the output is that stack joined |
| `Paths.JoinIsSafe` | desktop/src/core/text.cpp:751-776 | a joined stack of names can only be unsafe by its length or by a drive letter |
| `Paths.AcceptedIsSafeAndFixed` | desktop/src/core/text.cpp:751-829 | every accepted output is safe for the separate predicate, is a fixed point of normalisation, and splits into the names of the stack |
| `Paths.DriveBehindDot` | desktop/src/core/text.cpp:751-829 | `./c:x` passes the safety predicate but its normal form does not, so the last check of the normaliser is needed |
| `Paths.UnsafeExactly` | desktop/src/core/text.cpp:751-776 | a path is unsafe exactly when it is empty, longer than 200 bytes, begins with either slash, has a colon second, holds a byte up to 31 or 127, or two dots stand somewhere between slashes or ends |
| `Paths.SegmentsExactly` | desktop/src/core/text.cpp:764-774 | the segments of a path are what stands between slashes or ends, for every text |
| `Paths.SegmentLaws` | desktop/src/core/text.cpp:797-815 | what one more segment behind either slash does to where a path leads: nothing for an empty one or a dot, two dots drop the last name or fail, anything else is a name |
| `Like.EscapeLike` | desktop/src/library/smart_playlist.cpp:680-688 | the loop puts the escape character before `%`, `_` and itself and leaves the rest |
| `Like.EscapedMatchesItself` | desktop/src/library/smart_playlist.cpp:680-688 | an escaped text in front of any pattern matches that text up to the character equivalence and nothing else |
| `Like.EscapedCharacter` | desktop/src/library/smart_playlist.cpp:680-688 | a backslash is put before the percent sign, the underscore and the backslash, and before nothing else |
| `Like.StartsWithPattern` | desktop/src/library/smart_playlist.cpp:810-837 | the pattern of startsWith matches exactly the subjects with that prefix |
| `Like.EndsWithPattern` | desktop/src/library/smart_playlist.cpp:810-837 | the pattern of endsWith matches exactly the subjects with that suffix |
| `Like.ContainsPattern` | desktop/src/library/smart_playlist.cpp:810-837 | the pattern of contains matches exactly the subjects in which the text occurs |
| `Rules.BuiltinsHaveColumns` | desktop/src/library/smart_playlist.cpp:24-106 | the fields the parser accepts and the fields the compiler has columns for are the same |
| `Compilation.DurationLiteral` | desktop/src/library/smart_playlist.cpp:633-668 | a literal of numbers with units is bound as the sum of its parts in seconds |
| `Compilation.DurationRefused` | desktop/src/library/smart_playlist.cpp:633-668 | a duration is refused exactly when it holds a character that is neither digit nor unit |
| `Compilation.DurationIsSeconds` | desktop/src/library/smart_playlist.cpp:633-668 | every literal with a unit is bound as its seconds, digits after the last unit and a sign in front ignored |
| `Compilation.DurationUnits` | desktop/src/library/smart_playlist.cpp:78-670 | the column is in milliseconds and a number is bound as it stands: a literal and its number of milliseconds are bound alike exactly when they are zero |
| `Compilation.ThreeMinutes` | desktop/src/library/smart_playlist.cpp:589-670 | 3m is bound as 180 and the number of milliseconds as 180000 |
| `Compilation.HoursMinutesSeconds` | desktop/src/library/smart_playlist.cpp:633-668 | h hours, m minutes and s seconds, written in decimal, are bound as 3600 h + 60 m + s |
| `Compilation.NormaliseBind` | desktop/src/library/smart_playlist.cpp:589-675 | the value bound for an operand, or the duration error, branch for branch |
| `Compilation.Compiler.PushBind` | desktop/src/library/smart_playlist.cpp:954-960 | appends exactly the one value to the parameter list, or nothing |
| `Compilation.Compiler.CompileComparison` | desktop/src/library/smart_playlist.cpp:757-875 | overwrites the fragment with the comparison's tokens and appends its values in order, or reports its error |
| `Compilation.Compiler.CompileCustom` | desktop/src/library/smart_playlist.cpp:877-952 | the same for a custom tag, as an EXISTS or NOT EXISTS subquery with the key bound first |
| `Compilation.Compiler.PushAll` | desktop/src/library/smart_playlist.cpp:795-808 | the IN loop writes one placeholder for each value it binds |
| `Compilation.Compiler.CompileGroup` | desktop/src/library/smart_playlist.cpp:732-755 | the recursive walk through one shared fragment and one shared parameter list yields the tokens and values of the tree in order, or the first error |
| `Compilation.Compiler.CompileOrderBy` | desktop/src/library/smart_playlist.cpp:707-726 | the ORDER BY terms in order, or the first field without a column |
| `Compilation.Compiler.Run` | desktop/src/library/smart_playlist.cpp:698-730 | the complete query or the error that compile reports |
| `Compilation.Compile` | desktop/src/library/smart_playlist.cpp:968-975 | the same for the whole function |
| `CompileErrors.TreeErrorIsFirst` | desktop/src/library/smart_playlist.cpp:732-875 | the walk fails with just the error of the first comparison, in tree order, that fails, and succeeds when none does |
| `CompileErrors.ComparisonFails` | desktop/src/library/smart_playlist.cpp:757-960 | a comparison fails for its duration exactly when its field is duration and an operand its operator binds is a text with, its sign apart, a character neither digit nor unit |
| `CompileErrors.ReasonLostExactly` | desktop/src/library/smart_playlist.cpp:698-975 | compile reports the unknown error exactly when some comparison has a malformed duration and every one before it in the tree has no error |
| `CompileErrors.MalformedDurationIsUnknown` | desktop/src/library/smart_playlist.cpp:954-974 | the rule duration > 3x is refused with the unknown error |
| `CompileErrors.ComparisonError` | desktop/src/library/smart_playlist.cpp:757-960 | which error a comparison gives, and when it gives none: by prefix, operator and kind of value for a custom field, by column, operator, kind of field and value for a builtin one |
| `CompileErrors.OrderMeaning` | desktop/src/library/smart_playlist.cpp:707-726 | the ORDER BY items are the terms' own columns and directions in order, and the first term without a column is the error |
| `CompileErrors.QueryMeaning` | desktop/src/library/smart_playlist.cpp:698-730 | a query exists exactly when no comparison has an error and every term a key; its order is the rule's, or by row number when there is none, and its limit the rule's |
| `CompilerCorrectness.MarksAreBinds` | desktop/src/library/smart_playlist.cpp:732-960 | whatever compiles has as many placeholders as bound values |
| `CompilerCorrectness.ParseOfNode` | desktop/src/library/smart_playlist.cpp:732-952 | the flat tokens of a subtree, followed by anything an operand may be followed by, parse back to the tree: BETWEEN keeps its own AND, NOT and brackets bind as meant |
| `CompilerCorrectness.EmptyGroupFails` | desktop/src/library/smart_playlist.cpp:732-755 | a tree with an empty group anywhere compiles to something that is no SQL expression |
| `CompilerCorrectness.NodeValue` | desktop/src/library/smart_playlist.cpp:732-960 | with the placeholders bound in order, the parsed expression has the three-valued value of the subtree on every row |
| `CompilerCorrectness.CompiledQueryMeansRule` | desktop/src/library/smart_playlist.cpp:698-960 | for every rule compile accepts: placeholders and parameters agree in number; the fragment parses exactly when no group is empty; and then it rebuilds the rule tree and has its value on every row and set of tag rows |
| `CompilerCorrectness.EmptyGroupIsNoSql` | desktop/src/library/smart_playlist.cpp:732-755 | a group without children compiles to an empty pair of parentheses, which does not parse |
| `RowMeaning.NumberOperators` | desktop/src/library/smart_playlist.cpp:108-126 | on a column that holds the integer x the six comparison operators with a number v are true exactly when x = v, x != v, x > v, x < v, x >= v and x <= v, and between v and w when v <= x <= w |
| `RowMeaning.FieldTables` | desktop/src/library/smart_playlist.cpp:24-106 | the column each field is stored in, and that just the listed fields are about numbers |
| `RowMeaning.ComparisonAgrees` | desktop/src/library/smart_playlist.cpp:757-952 | every comparison that compiles has on every row, and over any tags, the value that its field, operator, operands and flags say in arithmetic and text equality, NULL and the case flag included |
| `RowMeaning.CompiledQuerySelects` | desktop/src/library/smart_playlist.cpp:698-960 | on every row of integers, texts and NULL with any tags the emitted fragment has the value the rule says: an `and` fails when one child fails, an `or` holds when one does, an unknown child is decided by the others or not at all |
| `TextOperators.ColumnTextMeaning` | desktop/src/library/smart_playlist.cpp:810-837 | on a column a compiled contains, notContains, startsWith or endsWith tests the user's own text, wildcards and backslashes included |
| `TextOperators.TagTextMeaning` | desktop/src/library/smart_playlist.cpp:904-942 | on a custom tag it says that some row of the track under the key passes the test, for any rows of the table |
| `TextOperators.TextOperatorMeaning` | desktop/src/library/smart_playlist.cpp:810-942 | the two together: what the four operators mean for every comparison that compiles |
| `TextOperators.ColumnNotContains` | desktop/src/library/smart_playlist.cpp:810-837 | on a column notContains is the negation of contains on every row, NULL included |
| `TextOperators.TagNotContains` | desktop/src/library/smart_playlist.cpp:904-942 | on a custom tag it is exactly when the track has the tag and its values under it agree on the test |
| `TextOperators.TwoTagsContainAndNot` | desktop/src/library/smart_playlist.cpp:921-935 | a track with the moods calm and wild both contains calm and does not |
| `Doubles.TruncateIsExact` | desktop/src/core/json/json.cpp:47-53 | truncating a double leaves an integer that is again a double |
| `Doubles.AsIntIsExact` | desktop/src/core/json/json.cpp:47-53 | the integer read from any number of a document is a double in the range of int64 |
| `Doubles.StoredInteger` | desktop/src/library/smart_playlist.cpp:983-989 | an integer written as a double and read back is unchanged exactly when it is itself a double, within 2^53 or beyond |
| `Doubles.NearestDouble` | desktop/src/library/smart_playlist.cpp:983-1005 | what an integer is stored as is a nearest double, of two equally near ones the one with an even mantissa |
| `RuleJson.ValidCustomFieldName` | desktop/src/library/smart_playlist.cpp:230-248 | accepts exactly the custom field names of the allowed alphabet and length |
| `RuleJson.OperatorNames` | desktop/src/library/smart_playlist.cpp:192-228 | each operator's written name is the one name that is read as it |
| `RuleJson.ParseComparison` | desktop/src/library/smart_playlist.cpp:252-372 | the comparison a JSON value means or its error, with the checks in the source's order |
| `RuleJson.ParseOperands` | desktop/src/library/smart_playlist.cpp:297-371 | the operands each operator takes, with the IN list read in order |
| `RuleJson.ParseGroup` | desktop/src/library/smart_playlist.cpp:374-428 | the group a JSON value means, its nested children in order, or the first error |
| `RuleJson.ParseExpression` | desktop/src/library/smart_playlist.cpp:430-444 | a lone comparison becomes a group of one |
| `RuleJson.ParseTerms` | desktop/src/library/smart_playlist.cpp:503-533 | the ORDER BY terms in order, or the first error |
| `RuleJson.ParseRule` | desktop/src/library/smart_playlist.cpp:459-555 | the rule a JSON value means, or its error |
| `RuleSchema.ComparisonMeaning` | desktop/src/library/smart_playlist.cpp:252-372 | a value is read as a comparison exactly when its members say so, word for word: field, operator, operands, and the two flags set exactly by a true |
| `RuleSchema.GroupMeaning` | desktop/src/library/smart_playlist.cpp:374-428 | the same for groups, whose children are groups exactly when they have rules |
| `RuleSchema.RuleMeaning` | desktop/src/library/smart_playlist.cpp:459-555 | a document is read as a rule exactly when it means the rule: version 1 once cut off, name and description or nothing, refreshing unless false, match, order and limit |
| `RuleSchema.ConformsExactly` | shared-spec/schemas/smart-playlist.schema.json:6-205 | every document that conforms to the published schema is accepted, and an accepted one conforms exactly when it is tidy: no other members, flags and operands of the right kind, names and texts of the lengths allowed |
| `RuleSchema.ForeignMember` | shared-spec/schemas/smart-playlist.schema.json:8 | a member the format does not know changes nothing in the rule and makes a document that does not conform |
| `SchemaStorage.WrittenMembers` | desktop/src/library/smart_playlist.cpp:1070-1095 | just the members that say something are written: no empty name or description, no default flag, no empty order |
| `SchemaStorage.StoredConforms` | desktop/src/library/smart_playlist.cpp:983-1095 | a rule read from a document that conforms to the schema is written as a document that conforms |
| `RuleRefusals.ComparisonRefused` | desktop/src/library/smart_playlist.cpp:252-372 | each error of a comparison is reported for exactly the values that have its fault and none that is looked for earlier |
| `RuleRefusals.GroupRefused` | desktop/src/library/smart_playlist.cpp:374-428 | a group is refused for its own first fault, or for that of the first child that has one |
| `RuleRefusals.RuleRefused` | desktop/src/library/smart_playlist.cpp:459-555 | a document is refused with the first of its faults: version, match, order, limit |
| `RuleJsonRoundTrip.ReadRuleIsCanonical` | desktop/src/library/smart_playlist.cpp:252-556 | whatever JSON value is read, the rule holds only what its JSON form can carry |
| `RuleJsonRoundTrip.CanonicalRoundTrip` | desktop/src/library/smart_playlist.cpp:983-1093 | such a rule is read back unchanged from the JSON value built for it, nested groups, all operators and optional fields included |
| `RuleJsonRoundTrip.DumpRuleIsDouble` | desktop/src/library/smart_playlist.cpp:983-1093 | every number in the JSON value of a rule is a double |
| `RuleJsonRoundTrip.SurvivesExactly` | desktop/src/library/smart_playlist.cpp:983-1093 | a rule is read back unchanged from its JSON value exactly when it is canonical |
| `RuleJsonRoundTrip.ParsedRuleSurvives` | desktop/src/library/smart_playlist.cpp:252-556 | every rule read from a JSON value is read back unchanged from its own, without a bound on its integers |
| `JsonRoundTrip.StringRoundTrip` | desktop/src/core/json/json.cpp:132-174 | reading a written string gives its bytes sanitised, and the same bytes when they are well-formed, whatever control characters, quotes and backslashes they hold |
| `JsonRoundTrip.NumberOfConcat` | desktop/src/core/json/json.cpp:575-624 | a number is read up to exactly its end in any surroundings that cannot continue it |
| `JsonRoundTrip.ValueRoundTrip` | desktop/src/core/json/json.cpp:193-477 | a written value is read back in any surroundings, at any depth and after any number of values, or refused exactly when it passes the nesting or element limit |
| `JsonRoundTrip.ParsedIsDocument` | desktop/src/core/json/json.cpp:350-563 | whatever text is parsed, every string and name of the value is well-formed UTF-8 and no value lies deeper than the limit |
| `JsonRoundTrip.ParseOfDump` | desktop/src/core/json/json.cpp:193-637 | parse(dump(v)) is v exactly when the texts in v are well-formed and v keeps within the depth, element and byte limits; with well-formed texts it is v or an error |
| `JsonParser.EscapeText` | desktop/src/core/json/json.cpp:132-174 | the loop over code points writes the escaped string |
| `JsonParser.DumpText` | desktop/src/core/json/json.cpp:193-259 | the recursive writer appends the text of the value, members in ascending order |
| `JsonParser.Parser.SkipTrivia` | desktop/src/core/json/json.cpp:311-348 | moves past blanks and comments, and past a byte-order mark at the very start only |
| `JsonParser.Parser.ParseUnicode` | desktop/src/core/json/json.cpp:532-557 | a code point from one escape or a surrogate pair, U+FFFD for a surrogate without its partner |
| `JsonParser.Parser.ParseString` | desktop/src/core/json/json.cpp:479-563 | the bytes of the string or the error, from the position after its opening quote |
| `JsonParser.Parser.ParseNumber` | desktop/src/core/json/json.cpp:575-624 | the number the grammar finds, read by strtod, or the error |
| `JsonParser.Parser.ParseArray` | desktop/src/core/json/json.cpp:445-477 | the items in order, a trailing comma included, or the first error |
| `JsonParser.Parser.ParseObject` | desktop/src/core/json/json.cpp:394-443 | the members, no name twice, or the first error |
| `JsonParser.Parser.ParseValue` | desktop/src/core/json/json.cpp:350-378 | a value, or the error, with the depth and element limits checked first |
| `JsonParser.ParseText` | desktop/src/core/json/json.cpp:629-637 | the value of a whole text or its error |
| `JsonLanguage.ParsesExactly` | desktop/src/core/json/json.cpp:262-637 | a text is parsed to a value if and only if it is the text of a document of the grammar that means the value and keeps within the limits: RFC 8259 with comments, trailing commas and a byte-order mark, an open comment at the end, escapes in either letter case, pairs of halves, and no name twice |
| `JsonLanguage.DocumentRead` | desktop/src/core/json/json.cpp:262-637 | every such document is read as what it means |
| `JsonLanguage.ValueFound` | desktop/src/core/json/json.cpp:350-624 | whatever is read is a value of the grammar, with its depth and number of values |
| `JsonReading.NumberGrammar` | desktop/src/core/json/json.cpp:575-624 | the scanner takes exactly the numbers of section 6 of RFC 8259 |
| `JsonEscapes.PairIsRead` | desktop/src/core/json/json.cpp:532-557 | every character above U+FFFF, escaped as its two halves with digits of either case, is read as its bytes |
| `JsonEscapes.CodeIsRead` | desktop/src/core/json/json.cpp:532-557 | every other code is read as its character, and a half alone as U+FFFD |
| `JsonEscapes.WrittenCharacter` | desktop/src/core/json/json.cpp:132-174 | the bytes each character is written as |
| `JsonEscapes.WrittenNumber` | desktop/src/core/json/json.cpp:178-191 | integers of up to fifteen digits are written in decimal and all else by the C library |
| `JsonEscapes.StringFault` | desktop/src/core/json/json.cpp:479-557 | wherever a string breaks off or holds a control character, an unknown escape or bad digits, that fault is reported |
| `JsonFaults.NumberFault` | desktop/src/core/json/json.cpp:575-624 | the fault of a number without digits, with a leading zero, or that breaks off in its fraction or exponent |
| `JsonFaults.ValueFault` | desktop/src/core/json/json.cpp:350-392 | the faults where a value is expected: depth, number of values, end of input, a word misspelt |
| `JsonFaults.MemberFault` | desktop/src/core/json/json.cpp:394-443 | the faults where a member is expected: no name, no colon |
| `JsonFaults.TakenNameFault` | desktop/src/core/json/json.cpp:394-443 | a name that was there before is reported |
| `JsonFaults.SeparatorFault` | desktop/src/core/json/json.cpp:394-477 | the faults behind an item or member, and the comma before the bracket that is allowed or not |
| `JsonFaults.DocumentFault` | desktop/src/core/json/json.cpp:629-637 | too many bytes are reported first, and text behind the value last |
| `RuleStorage.ParseRuleText` | desktop/src/library/smart_playlist.cpp:448-556 | parse_rule_json on a text: the JSON error, the rule error or the rule |
| `RuleStorage.RuleText` | desktop/src/library/smart_playlist.cpp:1070-1095 | to_json: the text of the rule |
| `RuleStorage.SomeLibraryIsFaithful` | desktop/src/core/json/json.cpp:178-191 | the assumptions about printing and reading numbers can be met |
| `RuleStorage.IntegerSurvives` | desktop/src/core/json/json.cpp:178-191 | every integer a rule can hold is read back from its printed form, below 10^15 by its decimal digits |
| `RuleStorage.RuleDepth` | desktop/src/library/smart_playlist.cpp:983-1093 | the depth of a rule's document is two levels for each nested group and one or two for a comparison |
| `RuleStorage.ReadRuleDepth` | desktop/src/library/smart_playlist.cpp:374-446 | a rule read from a document is no deeper than the document, but for a lone comparison, which gets a group |
| `RuleStorage.SurvivesStorage` | desktop/src/library/smart_playlist.cpp:448-1095 | parse_rule_json(to_json(r)) is r exactly when r is one parsing can return, its texts are well-formed UTF-8, its groups are not nested too deeply, and its document keeps within the element and byte limits |
| `RuleStorage.LoadedRuleSurvives` | desktop/src/library/smart_playlist.cpp:448-1095 | whatever text a rule was loaded from, storing and loading it again changes nothing, unless its document has grown past the element or byte limit |
| `RuleLimits.DefaultLimits` | desktop/src/core/json/json.hpp:36-41 | the limits a rule is parsed under: 8 MiB, 64 levels, 200,000 values, comments and trailing commas allowed |
| `RuleLimits.DeepRuleIsLost` | desktop/src/library/smart_playlist.cpp:993-1005 | thirty-two nested groups make a canonical rule whose text is refused |
| `RuleLimits.GrownRuleIsLost` | desktop/src/library/smart_playlist.cpp:430-446 | a text of exactly 8 MiB with a lone comparison is loaded, but its rule is written with a group around the comparison and that text is refused as too large |
| `CrowdedRule.CrowdedRuleIsLost` | desktop/src/library/smart_playlist.cpp:480-1095 | a text within all limits, its order terms without direction, is loaded as a rule whose own text, within the byte limit, has 200,006 values and is not loaded again |
| `RuleStorage.LoadedRuleCompilesToItsMeaning` | desktop/src/library/smart_playlist.cpp:448-975 | a rule that was loaded from text and compiles has a fragment that parses and has the value of the rule on every row, with as many placeholders as parameters |
| `WriteQueue.StepKeepsInv` | desktop/src/library/database.cpp:473-546 | every critical section of every thread keeps the invariant of the queue |
| `WriteQueue.EveryRunIsSerial` | desktop/src/library/database.cpp:473-546 | in every interleaving executed, in-flight and queued jobs make up the push order; the database and each fulfilled promise are those of executing the jobs one after the other; each promise is fulfilled at most once |
| `WriteQueue.ShutdownCompletes` | desktop/src/library/database.cpp:498-531 | once the connection is closed every job pushed before the stop request is complete, and what is left in the queue is exactly what was pushed after the writer had gone |
| `WriteQueue.NothingRunsAfterClose` | desktop/src/library/database.cpp:520-531 | no job runs on a closed connection |
| `WriteQueue.WriterAdvances` | desktop/src/library/database.cpp:476-515 | after the stop request the writer is never blocked and each of its steps brings it nearer to its exit |
| `WriteQueue.WriterDrains` | desktop/src/library/database.cpp:498-515 | from any state after the stop request a bounded number of writer steps completes every job pushed |
| `WriteQueue.OldestIsServed` | desktop/src/library/database.cpp:476-496 | before the stop request one round of the writer takes, runs and answers the oldest job |
| `WriteQueue.FirstJobIsServed` | desktop/src/library/database.cpp:466-496 | a job pushed onto a new database runs on it and its promise is fulfilled |
| `WriteQueue.Database.Write` | desktop/src/library/database.cpp:537-546 | enqueues the job behind all others |
| `WriteQueue.Database.RequestShutdown` | desktop/src/library/database.cpp:520-528 | requests the stop and leaves everything else |
| `WriteQueue.Database.CheckLoop` | desktop/src/library/database.cpp:477 | the guard of the writer's loop: into the wait, or on to the drain |
| `WriteQueue.Database.WakeUp` | desktop/src/library/database.cpp:478-487 | takes the oldest job, or leaves the loop when stopped with nothing queued |
| `WriteQueue.Database.ExecuteJob` | desktop/src/library/database.cpp:489-493 | runs the job held, on an open connection |
| `WriteQueue.Database.FulfilPromise` | desktop/src/library/database.cpp:494 | sets the job's promise to its status, which had none before |
| `WriteQueue.Database.DrainNext` | desktop/src/library/database.cpp:499-507 | takes the oldest job left, or ends the thread |
| `WriteQueue.Database.CloseConnection` | desktop/src/library/database.cpp:525-531 | closes the connection after the writer has ended |
| `ChangeLog.StepKeepsInv` | desktop/src/library/change_log.cpp:51-76 | every critical section of record and sync_clock keeps the invariant of the clock, the log and the clocks not yet appended |
| `ChangeLog.ClocksAscend` | desktop/src/library/change_log.cpp:51-62 | in every interleaving from a quiet state the clocks handed out ascend, above the first clock and never above the current one, and appended entries carry different ones of them |
| `ChangeLog.ClocksAreFresh` | desktop/src/library/change_log.cpp:51-76 | from any point where the clock has caught up, whoever is at work then, every clock handed out later is above every clock in the log at that point |
| `ChangeLog.SyncCatchesUp` | desktop/src/library/change_log.cpp:70-76 | a sync that completes brings the clock up to the log, whatever other threads do between its two sections |
| `ChangeLog.FreshExactlyWhenCaughtUp` | desktop/src/library/change_log.cpp:19-22 | every run hands out clocks above the log exactly when the clock had caught up beforehand |
| `ChangeLog.UnsyncedClockRepeats` | desktop/src/library/change_log.cpp:19-22 | without a sync the first record over a log repeats a clock, and a reader taking one entry at a time never sees one of the two |
| `ChangeLog.LaterMeaning` | desktop/src/library/database.cpp:704-738 | what a reader is to see: each entry above its clock as often as the log has it, in clock order |
| `ChangeLog.PageSize` | desktop/src/library/database.cpp:704-738 | a page is the first so many later entries, none for a limit of 0 and all for a negative one |
| `ChangeLog.PagingIsComplete` | desktop/src/library/database.cpp:704-738 | with different clocks, pages of any non-zero limit taken by the last clock returned make up everything later, once each and in order |
| `ChangeLog.PagingExactly` | desktop/src/library/database.cpp:704-738 | pages of every size show everything later exactly when no two later entries share a clock |
| `ChangeLog.PagingReachableLog` | desktop/src/library/database.cpp:704-738 | all pages taken from one state of any log the writers can reach: a reader that starts at or above the clocks the log first held is shown every entry above its start exactly once in order; once the clock has caught up those are all the entries appended since |
| `ChangeLogReader.PageMeaning` | desktop/src/library/database.cpp:704-738 | with different clocks a page holds exactly the entries above the reader's clock up to its own last one |
| `ChangeLogReader.PageStandsExactly` | desktop/src/library/change_log.cpp:51-62 | whatever other threads do after a page was read, it stays the beginning of what is later, and what is left is what is later than its last clock, exactly when no thread holds a clock the page leaves behind |
| `ChangeLogReader.InterleavedReading` | desktop/src/library/database.cpp:704-738 | a reader whose pages interleave with any steps of the writers, none of them leaving behind a clock some thread holds, was shown in order and once each everything in the final log between its start and its position |
| `ChangeLog.LateExactlyWhenPending` | desktop/src/library/change_log.cpp:51-62 | an entry can still arrive at or below a reader's clock exactly when some thread holds such a clock between the two sections of record |
| `ChangeLog.LateEntry` | desktop/src/library/change_log.cpp:51-62 | two threads append in the other order than they took clocks: a reader that has seen the second clock is never shown the first |
| `ChangeLog.RecordAmongOthers` | desktop/src/library/change_log.cpp:51-62 | whatever other threads do between its two sections, a record appends the clock it took with its own change at the end of the log, or, when the row is not stored, nothing while its clock is used up |
| `ChangeLog.ChangeLog.NextClock` | desktop/src/library/change_log.cpp:55-59 | the first section of record takes a clock above every one handed out, waiting or appended so far, and above the whole log once the clock has caught up; the invariant is kept |
| `ChangeLog.ChangeLog.AppendEntry` | desktop/src/library/change_log.cpp:60-61 | the second section adds a clock that no row appended so far and no other waiting thread has, and keeps the invariant |
| `ChangeLog.ChangeLog.MaxOfRows` | desktop/src/library/database.cpp:651-664 | the highest clock in the log, 0 when it is empty |
| `ChangeLog.ChangeLog.RaiseClock` | desktop/src/library/change_log.cpp:73-75 | never lowers the clock and leaves it caught up with the log, appended to in between or not |
| `Lifecycle.EveryRunIsDisciplined` | desktop/src/app/lifecycle.cpp:26-103 | after any sequence of calls the trace is starts in registration order, then stops in the exact reverse of the steps that came up, each event at most once; just the steps before a failing one came up and it is never stopped itself; outside Running nothing is started, and between calls the state is never Starting or ShuttingDown |
| `Lifecycle.TerminalIsAbsorbing` | desktop/src/app/lifecycle.cpp:26-89 | Stopped and Failed refuse every call and never change |
| `Lifecycle.StartMeaning` | desktop/src/app/lifecycle.cpp:50-77 | start succeeds exactly when it is the first and no step fails; otherwise the error names the first failing step, and exactly the steps before it came up |
| `Lifecycle.RefusedExactly` | desktop/src/app/lifecycle.cpp:26-89 | which calls are refused and with what error, argument errors first; a refused call changes nothing |
| `Lifecycle.Registers` | desktop/src/app/lifecycle.cpp:26-48 | any sequence of proper registrations leaves the steps as they were given, in order |
| `Lifecycle.DownsMeaning` | desktop/src/app/lifecycle.cpp:91-103 | unwinding stops exactly the started steps that have a stop callback, each once, last first |
| `Lifecycle.Lifecycle.AddStep` | desktop/src/app/lifecycle.cpp:26-48 | appends the step while Created; the argument errors come before the state error |
| `Lifecycle.Lifecycle.Start` | desktop/src/app/lifecycle.cpp:50-77 | the machine and the answer after start, with callbacks that fail or call back |
| `Lifecycle.Lifecycle.Shutdown` | desktop/src/app/lifecycle.cpp:79-89 | the machine and the answer after shutdown |
| `Lifecycle.Lifecycle.Unwind` | desktop/src/app/lifecycle.cpp:91-103 | the reverse loop adds exactly those stops and clears the started list |
| `Lifecycle.Lifecycle.RunCallback` | desktop/src/app/lifecycle.cpp:41-97 | whatever a callback calls while a start or shutdown is under way is refused and changes nothing |
| `Migrations.PendingMeaning` | desktop/src/library/database.cpp:312-340 | the pending targets are those of 8, 9, 11, 13, 14 and 15 above the stored version, each once and in increasing order |
| `Migrations.DataAfter` | desktop/src/library/database.cpp:338-363 | each migration is given the data the one before it left |
| `Migrations.VersionFailures` | desktop/src/library/database.cpp:325-336 | a version that cannot be read, is negative or above 15 is reported as such, and only then |
| `Migrations.MigrationFailures` | desktop/src/library/database.cpp:338-363 | a fault at a pending migration is reported with its version and its step; a fault at any other is never met |
| `Migrations.RunsApplyAPrefix` | desktop/src/library/database.cpp:325-367 | after any number of runs with any pattern of failures the database is where the first k pending migrations put it, each applied once and in order, with no trace of the failed ones |
| `Migrations.SucceedsExactly` | desktop/src/library/database.cpp:325-367 | a run succeeds exactly when the version can be read and is between 0 and 15 and no pending migration meets a fault |
| `Migrations.AnySuccessIsComplete` | desktop/src/library/database.cpp:325-367 | as soon as one run succeeds, the outcome, later runs included, is that of a single undisturbed run: version 15 and every pending migration applied exactly once |
| `Migrations.Database.MigrateOne` | desktop/src/library/database.cpp:342-363 | one transaction: data and version move together, or roll back to what they were |
| `Migrations.Database.RunTable` | desktop/src/library/database.cpp:338-366 | the loop skips reached targets and stops at the first failure |
| `Migrations.Database.RunMigrations` | desktop/src/library/database.cpp:325-367 | the whole runner, with its early answers for a current, a newer and a corrupt version |
| `Scanner.Scanner.Diff` | desktop/src/library/scanner.cpp:423-475 | the three lists in discovery order, a repeated path counting as new, and the gone paths in ascending order; an error without a database |
| `Scanner.DiffIsPartition` | desktop/src/library/scanner.cpp:443-465 | the three lists together hold every discovered path as often as it came up |
| `Scanner.DiffMeaning` | desktop/src/library/scanner.cpp:437-469 | a file is listed as unchanged exactly when it is the first with its path and a row that is not deleted has that path, that size and a time no earlier; as changed when the row has another size or an earlier time; as new when there is none or the path came up before; each list is in the order of discovery, and gone are the paths of rows no file has |
| `Scanner.FoldMeaning` | desktop/src/library/schema.sql:56 | two paths are the same to the table exactly when they are equal up to the case of A to Z |
| `Ordering.ListingIsUnique` | desktop/src/library/scanner.cpp:467-469 | a set of strings has one ascending listing, so the gone list is determined |
| `Scanner.DiffNamesTheWrites` | desktop/src/library/scanner.cpp:443-465 | the paths listed as new or changed are those of the files to be written |
| `Scanner.SettledExactly` | desktop/src/library/scanner.cpp:423-475 | once new and changed files are written in any order and gone paths marked, a second diff finds nothing exactly when no two discovered paths are equal up to ASCII case, no discovered file meets a row that is deleted or spelled differently, and no file was written before its modification time |
| `Scanner.DeletedRowStaysNew` | desktop/src/library/database.cpp:865-940 | a file whose row is deleted is new in the first diff and, after it was written, in the next one again |
| `Scanner.WrittenKey` | desktop/src/library/database.cpp:801-975 | a path one file writes ends with that file's size and time, its row's spelling and deletion mark kept |
| `Scanner.MarkAllMarks` | desktop/src/library/database.cpp:1051-1072 | just the live rows at the given paths become deleted |
| `Scanner.Database.UpsertTrack` | desktop/src/library/database.cpp:801-975 | afterwards a row with the file's size and time is there, every other row is as before and paths stay unique; the path is missing from the live paths exactly when its row was deleted or spelled differently |
| `Scanner.Database.MarkPathsGone` | desktop/src/library/database.cpp:1051-1072 | the rows at these paths, and no others, become deleted |
| `Scanner.Database.GetAllPaths` | desktop/src/library/database.cpp:1034-1049 | each path of a row that is not deleted, in its own spelling, and no two equal up to ASCII case |
| `Scanner.Database.GetTrackByPath` | desktop/src/library/database.cpp:1005-1032 | a row that is not deleted and whose path is the same up to ASCII case; none only when every such row is deleted |

## Left out

- EditDistance.BoundedDistance: uses unbounded naturals, so it does not model the wrap of `max_distance + 1` at the largest size_t.
- Compilation.NormaliseBind: adds up durations in unbounded integers, so the signed overflow of a very long literal is not modelled; the single-suffix branch is dead in the source and absent here.
- Doubles.AsIntIsExact: admits 2^63 itself, where the source's cast is undefined.
- ChangeLog.ChangeLog.NextClock: does not model the overflow of the 64-bit clock.
- WriteQueue.Database.Write: ends at the push; a caller whose job is pushed after the writer has gone waits forever, which shows in `WriteQueue.ShutdownCompletes` as a job left in the queue. Jobs with an empty function are not modelled.
- Migrations.Database.RunMigrations: treats the schema version as a plain stored cell; in SQLite `PRAGMA schema_version` is a counter that every schema change also bumps. A rollback is taken to succeed.
- Lifecycle.Lifecycle.Start: a callback is the list of calls it makes and its outcome; exceptions and callbacks of other objects are not modelled, and error texts only by what they name.
- Scanner.Scanner.Diff: queries do not fail, paths are their generic strings, and the statistics and progress reports are absent; `std::sort` and the hash set are taken by what they promise.
- Scanner.Database.UpsertTrack: keeps only path, size, time and deletion mark of a row; CHECK constraints and failing statements are not modelled.
- SQLite itself: the parser theorems hold for an arbitrary judgement of each atom; `RowMeaning` fixes comparisons of integers and of texts, NOCASE, BETWEEN, IN, LIKE and NULL, and leaves GLOB, the text of an integer and its comparison with a text as parameters. ORDER BY is not evaluated, and the tokens stand for the SQL text.
- ORDER BY terms on custom fields parse but never compile; this is modelled as the error it gives, without more.
- JsonParser.Parser.ParseValue: the line and column of a parse error are not modelled, only which error it is.
- JsonParser.DumpText: writes without indentation only, as rules are stored; infinities and NaN are not among the model's numbers.
- RuleStorage.SurvivesStorage: what printf and strtod do is assumed for integers (`Faithful`), not derived from an algorithm; in a locale whose decimal point is a comma the assumption need not hold.
- LIKE compares characters, not bytes of an encoding; which characters it treats as equal is a parameter.
- Reader locks, condition-variable wake-ups and memory order: the steps of a machine are the source's critical sections.
- evaluate_all_smart_playlists: its SQL binds the parameters of a rule at another position (desktop/src/library/library_database.cpp:359-390), so the theorem on parameters does not extend to it.
- to_lower, to_upper, strip_diacritic, sort_key, split_multi, parse_double and parse_hex: table look-ups and easy loops; lower-casing and sort keys are not idempotent as written.
- Scanning, file watching, tag reading, cue sheets, playback, IPC, tray and hotkeys: foreign calls, wall-clock code or easy members.

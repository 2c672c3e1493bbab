# rust-sysctl-loader in Dafny

This project models the core of rust-sysctl-loader, a loader for
sysctl-style configuration text. The core has three parts.

- **Parameter map** (src/hashmap.rs). This is a tree of parameters. Each node maps a path
  segment to a leaf string (`V`) or to a nested node (`M`). `get` walks a
  path one segment per level. `insert` stores a leaf at a path, creating
  nodes on the way.
- **Parsers.**
  - The sysctl parser (src/sysctl.rs) reads `token.path = value` lines into
    the parameter map.
  - The schema parser (src/schema.rs) reads `token.path => type` lines into a
    flat map from the whole dotted token to `string`, `bool` or `integer`.
  - Both parsers follow the same steps: trim the line; refuse a line break
    inside it; skip blank, `#`, `;` and `-` lines; require the separator;
    cut at its first occurrence; check the dots of the token. The first bad
    line ends the parse with its error.
- **Validator** (src/validator.rs). For every schema entry it looks up the
  dotted key in the parameter map. It reports one of four errors: the key is
  missing, it is a node, its value is not a bool, or its value is not a `u64`.

src/lib.rs is an older, self-contained copy of the map and the sysctl parser.
Its map code is the same line for line. Its parser differs only in the
wording of two errors. It is modelled as the `Legacy` edition of the one
sysctl parser.

The Dafny modules follow the source.

| module | file | models |
|---|---|---|
| `Wrappers` | wrappers.dfy | `Option`, `Result` and `Outcome` (Rust's `Result<(), String>`) |
| `Strings` | strings.dfy | the `str` operations used: `trim`, `contains`, `starts_with`, `ends_with`, `splitn(2, …)`, `split('.')` and its inverse `join`, `lines` |
| `LineSyntax` | line_syntax.dfy | the line steps both parsers share, and the token's dot rules |
| `HashMap` | hashmap.dfy | `SysctlParameterValue`, and `SysctlParameterHashMap` as a class with `new`, `get` and `insert` |
| `Sysctl` | sysctl.dfy | `parse_token`, `parse_line`, `parse_str` of src/sysctl.rs and src/lib.rs |
| `Schema` | schema.dfy | `SchemaType`, `SchemaHashMap`, `parse_token`, `parse_line`, `parse_str` |
| `Validator` | validator.dfy | `validate_value`, `validate` |
| `Lib` | lib.dfy | `parse_sysctl_conf_str`, and how the two parser copies agree |
| `Cases` | cases.dfy | the documents of the unit tests, with the outcomes the tests expect |

Pure code is modelled as functions: token, line and value checks, and the
walk and insert on nested maps. Code that changes state is modelled
imperatively:
- `insert` is a method on the root object. It updates `items` in place and
  recurses into the child node.
- Each `parse_str` is a method with a `for` loop over the lines. Each loop
  is proved against a function of the whole text (`ParseDocument`).
- `validate` is a `while` loop over the schema keys.

## Model

| member | source | states |
|---|---|---|
| `Strings.Trim` | src/sysctl.rs:9-10 | The trimmed text is the part of the input between a whitespace prefix and a whitespace suffix, and it neither starts nor ends with whitespace |
| `Strings.TrimInfix` | src/sysctl.rs:25 | Trimming a line yields exactly the part between a whitespace prefix and a whitespace suffix whose ends are not whitespace |
| `Strings.FindFirst` | src/sysctl.rs:42-44 | `splitn(2, sep)` cuts where the separator first occurs: a cut exists exactly when the line contains the separator, and it is the leftmost occurrence |
| `Strings.Split` | src/sysctl.rs:19 | `split('.')` gives at least one segment, no segment holds the separator, and joining the segments with it gives the input back |
| `Strings.SplitJoin` | src/sysctl.rs:19 | Splitting the join of separator-free segments gives those segments back (the round trip of `split` and `join`) |
| `Strings.SplitSingle` | src/sysctl.rs:19 | A token without `.` splits into itself alone |
| `Strings.SplitAfterSegment` | src/sysctl.rs:19 | The first `.` cuts off the first segment, and the rest splits as it would on its own |
| `Strings.Lines` | src/sysctl.rs:54 | The lines hold no line feed, and joining them with line feeds gives the text back |
| `LineSyntax.Classify` | src/sysctl.rs:25-44 | No contract of its own; the order of the tests of `parse_line` and the cut at the first separator are stated by `LineSyntax.ClassifyCases` |
| `LineSyntax.ClassifyCases` | src/sysctl.rs:25-44 | A trimmed line is in exactly one case: it holds a line break; or it is blank, `#`, `;` or `-`; or it has no separator; or it is cut at the first separator, which the token and the payload leave out |
| `LineSyntax.FirstOccurrenceUnique` | src/sysctl.rs:42-44 | There is only one first occurrence of the separator, so the cut is determined |
| `LineSyntax.HierarchyByCharacters` | src/sysctl.rs:12 | For a non-empty token, the `starts_with`/`ends_with`/`contains("..")` check passes exactly when neither end is `.` and no two `.` are adjacent |
| `LineSyntax.JoinDotsSeparated` | src/sysctl.rs:19 | Dot-free segments joined with `.` pass the dot rules exactly when no segment is empty |
| `LineSyntax.PathSegmentsNonEmpty` | src/sysctl.rs:12-19 | A non-empty token passes the dot check exactly when every segment of its split is non-empty; the empty token passes and splits into the single empty segment |
| `LineSyntax.FirstFailureExists` | src/sysctl.rs:54-55 | When some line fails, one of them fails first (the one the `?` stops at) |
| `LineSyntax.FirstFailureUnique` | src/sysctl.rs:54-55 | There is only one first failing line |
| `HashMap.SysctlParameterHashMap.constructor` | src/hashmap.rs:22-26 | `new` makes a root with no entries |
| `HashMap.SysctlParameterHashMap.Insert` | src/hashmap.rs:50-78 | The new entries of the root are `Inserted(old entries, path, value)`; what that means is stated by the `Inserted…` lemmas |
| `HashMap.Lookup` | src/hashmap.rs:27-49 | No contract of its own; `get` is stated by `HashMap.LookupFound`, `HashMap.LookupAppend`, `HashMap.LookupEmpty` and `HashMap.LookupThroughNode` |
| `HashMap.LookupFound` | src/hashmap.rs:27-49 | `get` finds nothing on the empty path, and on a longer path it finds something only through a node at the first segment |
| `HashMap.LookupAppend` | src/hashmap.rs:34-47 | Looking up `p + q` is looking up `p` and then `q` inside the node found there; a leaf or nothing at `p` means nothing at `p + q` (no prefix match) |
| `HashMap.LookupEmpty` | src/hashmap.rs:27-49 | Nothing is found in an empty node |
| `HashMap.LookupThroughNode` | src/hashmap.rs:34-43 | Below a node at the first segment, every prefix of the path is looked up in that node without its first segment |
| `HashMap.LeafOnProperPrefixThroughNode` | src/hashmap.rs:68-74 | Below a node at the first segment, a leaf on a proper prefix of the path is a leaf on a proper prefix of the rest of the path |
| `HashMap.Inserted` | src/hashmap.rs:50-78 | No contract of its own; the effect of `insert` is stated by `HashMap.InsertedCases`, `HashMap.InsertedLookup` and the other `Inserted…` lemmas |
| `HashMap.InsertedCases` | src/hashmap.rs:50-78 | An empty path changes nothing. A single segment stores the leaf and keeps every other key. A longer path creates an empty node under an absent first segment and recurses into it, and is a no-op when the first segment holds a leaf. No key is ever removed |
| `HashMap.InsertedLookup` | src/hashmap.rs:50-78 | For a non-empty path, when no proper prefix holds a leaf, `get` of the path is the new leaf and every proper prefix is a node. Otherwise the map is unchanged |
| `HashMap.InsertedPreservesDivergent` | src/hashmap.rs:50-78 | `get` of any path that differs from the inserted path at some position is unchanged |
| `HashMap.InsertedPreservesOtherHeads` | src/hashmap.rs:55-74 | `get` of any path with another first segment is unchanged |
| `HashMap.InsertedShadowsBelow` | src/hashmap.rs:53-57 | When no proper prefix of `p` holds a leaf, so that the insert takes effect, nothing is found afterwards at any longer path through `p` |
| `HashMap.InsertedOverwrite` | src/hashmap.rs:50-78 | Inserting at a path twice is the same as inserting only the second value: the later line wins |
| `Sysctl.ParseToken` | src/sysctl.rs:8-22 | No contract of its own; stated by `Sysctl.ParseTokenCases` |
| `Sysctl.ParseTokenCases` | src/sysctl.rs:8-22 | A token is accepted exactly when its trimmed form passes the dot check. The error names the trimmed token. The path joins back to the trimmed token and has no `.` inside a segment. It has an empty segment only for the empty token. The value is the trimmed value |
| `Sysctl.EmptyToken` | src/sysctl.rs:12-20 | A line `= value` is accepted with the path `[""]` |
| `Sysctl.ParseTokenTrims` | src/sysctl.rs:9-10 | Only the trimmed token and value matter |
| `Sysctl.WellFormedToken` | src/sysctl.rs:18-20 | A trimmed token that passes the dot rules, with a trimmed value, is taken as it is, split at `.` |
| `Sysctl.MalformedToken` | src/sysctl.rs:12-16 | A trimmed token with a leading, trailing or doubled `.` is refused, whatever the value |
| `Sysctl.ParseLine` | src/sysctl.rs:24-50 | No contract of its own; stated by `Sysctl.ParseLineCases` |
| `Sysctl.ParseLineCases` | src/sysctl.rs:24-50 | A line break inside the trimmed line is an error, even on a comment. Blank, `#`, `;` and `-` lines yield nothing. A line without `=` is a format error. Otherwise the token is the text before the first `=` and the value is everything after it, later `=` included |
| `Sysctl.AssignmentLine` | src/sysctl.rs:41-48 | A trimmed single line that is not skipped is cut at its first `=`, and the token's result is the line's result |
| `Sysctl.TrimmedAssignmentLine` | src/sysctl.rs:41-48 | The same cut, when the two sides are known only up to trimming |
| `Sysctl.UnseparatedLine` | src/sysctl.rs:38-39 | A trimmed single line that is not skipped and has no `=` fails with the format error naming it |
| `Sysctl.ParseDocument` | src/sysctl.rs:52-61 | No contract of its own; stated by `Sysctl.ParseDocumentOutcome` |
| `Sysctl.Collect` | src/sysctl.rs:54-59 | No contract of its own; stated by `Sysctl.CollectFirstFailure` and `Sysctl.CollectAllAccepted` |
| `Sysctl.ParsedLinesStep` | src/sysctl.rs:54-59 | One step of the loop: a failing line ends the parse with its error; a skipped line changes nothing; an accepted line is inserted before the parse goes on |
| `Sysctl.ParseStr` | src/sysctl.rs:52-61 | The method's result is the document's outcome: on success its root holds exactly the map of `ParseDocument`, and on failure its error is that of `ParseDocument` |
| `Sysctl.CollectFirstFailure` | src/sysctl.rs:55 | The first failing line ends the parse with its own error |
| `Sysctl.CollectAllAccepted` | src/sysctl.rs:54-59 | When no line fails, the map is the accepted entries inserted in the order of the lines |
| `Sysctl.ParseDocumentOutcome` | src/sysctl.rs:52-61 | The parse succeeds exactly when no line fails, and then its map is the entries inserted in order. Otherwise its error is that of the first failing line, and there is no map |
| `Sysctl.OnlyIgnoredLines` | src/sysctl.rs:31-36 | A document of blank, comment and disabled lines gives the empty map |
| `Sysctl.NoEntries` | src/sysctl.rs:56-58 | Lines that yield nothing contribute no entry |
| `Sysctl.DocumentOfLines` | src/sysctl.rs:54 | A text made of separator-free lines joined with line feeds is parsed line by line as those lines |
| `Schema.TypeOfKeyword` | src/schema.rs:28-40 | A recognised right-hand side is the keyword of the type it names |
| `Schema.KeywordRoundTrip` | src/schema.rs:28-44 | Each type's keyword gives that type back, and exactly the words other than `string`, `bool` and `integer` name no type (case-sensitive) |
| `Schema.ParseToken` | src/schema.rs:17-47 | A token is accepted exactly when its trimmed form passes the dot check and the trimmed right-hand side is a keyword. The dot error comes first and hides a type error. A bad keyword gives the type error naming both. The key is the whole trimmed token |
| `Schema.ParseLine` | src/schema.rs:49-75 | No contract of its own; stated by `Schema.ParseLineCases` |
| `Schema.ParseLineCases` | src/schema.rs:49-75 | The sysctl line cases with `=>`: a line without `=>`, such as an `a = b` line, is a format error, and the right-hand side is everything after the first `=>` |
| `Schema.ChainedArrows` | src/schema.rs:67-70 | In `a => b => c` the right-hand side is `b => c`, which names no type, so a well-formed token gets the type error for that whole right-hand side |
| `Schema.ArrowIsNoKeyword` | src/schema.rs:41-44 | A right-hand side that holds `=>` is none of the three keywords |
| `Schema.ParseDocument` | src/schema.rs:77-86 | No contract of its own; stated by `Schema.ParseDocumentOutcome` |
| `Schema.Collect` | src/schema.rs:79-83 | No contract of its own; stated by `Schema.CollectFirstFailure` and `Schema.CollectAllAccepted` |
| `Schema.CollectStep` | src/schema.rs:79-83 | One step of the loop: a failing line ends the parse; a skipped line changes nothing; an accepted line stores its type under its token |
| `Schema.ParseStr` | src/schema.rs:77-86 | The method returns exactly the document's outcome `ParseDocument`, whose meaning `ParseDocumentOutcome` states |
| `Schema.StoreAllLast` | src/schema.rs:82 | A token holds the type of its last line |
| `Schema.StoreAllUntouched` | src/schema.rs:82 | A key that no line names keeps its old type, or stays absent |
| `Schema.StoreAllOrigin` | src/schema.rs:82 | No key appears unless it was there before or a line names it |
| `Schema.StoreAllLastWins` | src/schema.rs:81-83 | The three laws together: the last line for a token wins, other keys are untouched, and no other key appears |
| `Schema.LastEntryExists` | src/schema.rs:81-83 | Every token that some line names has a last line |
| `Schema.CollectAllAccepted` | src/schema.rs:79-83 | When no line fails, the map is the entries stored in the order of the lines |
| `Schema.CollectFirstFailure` | src/schema.rs:80 | The first failing line ends the parse with its own error |
| `Schema.ParseDocumentOutcome` | src/schema.rs:77-86 | The parse succeeds exactly when no line fails. Its keys are then exactly the tokens of the accepted lines, each with the type of its last line. Otherwise the error is that of the first failing line, and there is no partial map |
| `Validator.ValidateValue` | src/validator.rs:6-24 | A string entry accepts every value. A bool entry accepts exactly `true` and `false`. An integer entry accepts exactly the `u64` literals (optional `+`, at least one digit, at most 2^64−1). Each error names the key and the value |
| `Validator.IsU64Literal` | src/validator.rs:16 | No contract of its own; what `parse::<u64>` accepts is stated by `Validator.DecimalU64` |
| `Validator.IsBoolLiteral` | src/validator.rs:9 | No contract of its own; what `parse::<bool>` accepts is stated by `Validator.BoolLiterals` |
| `Validator.DecimalU64` | src/validator.rs:15-21 | The decimal form of a number, with or without `+`, is accepted exactly when the number fits in a `u64`. A minus sign, an empty value and a lone `+` are refused |
| `Validator.BoolLiterals` | src/validator.rs:8-14 | A bool entry passes exactly on `true` and `false`; `True`, `1` and the empty value fail |
| `Validator.CheckEntry` | src/validator.rs:28-33 | The key is split at `.` and looked up. Nothing found gives "not found", a node gives "is a submap", and a leaf gives the value check of `validate_value` for the entry's type |
| `Validator.Validate` | src/validator.rs:26-36 | The result passes exactly when every schema entry passes. Otherwise it is the error of some failing entry; which one is left to the map's order |
| `Validator.ConformsEntries` | src/validator.rs:26-36 | An empty schema passes on every map. One failing entry makes the whole schema fail. A schema that passes keeps passing with entries removed |
| `Validator.InsertedTokenConforms` | src/validator.rs:28-30 | For a well-formed non-empty token inserted into an empty map, the validator's check of that token is the check of its value. A string entry for it passes |
| `Lib.ParseSysctlConfStr` | src/lib.rs:135-146 | The older parser returns the outcome of `ParseDocument` for the `Legacy` wording |
| `Lib.LineEditionsAgree` | src/lib.rs:107-133 | Both copies accept the same lines and build the same entry from them. A line break is the same error in both. A line without `=` is the format error naming the same trimmed line, and a refused token is the token error naming the same trimmed token, each in its copy's wording |
| `Lib.DocumentEditionsAgree` | src/lib.rs:135-146 | Both copies accept the same documents and build the same map from them |
| `Cases.ThreeEntries` | src/lib.rs:157-180 | Test `sample1`: leaves `endpoint` and `debug` at the root, and a `log` node with `file` |
| `Cases.SharedSubtree` | src/lib.rs:182-205 | Test `sample2`: the comment line adds nothing, and `log.file` and `log.name` share one `log` node. It holds for both wordings, so it also covers the same lines of test `sample2` in src/sysctl.rs |
| `Cases.Overwrite` | src/sysctl.rs:122-134 | Test `overwrite`: `endpoint` ends as `localhost:3001`; likewise for src/lib.rs:207-219 |
| `Cases.Whitespace` | src/sysctl.rs:136-149 | Test `whitespaces`: padding and lines of blanks do not matter; likewise for src/lib.rs:221-234 |
| `Cases.DisabledLine` | src/sysctl.rs:169-181 | Test `invalid_token_begins_with_hyphen`: the `-` line adds nothing; likewise for src/lib.rs:254-266 |
| `Cases.LeadingDotToken` | src/sysctl.rs:183-190 | Test `invalid_token_begins_with_dot`: the token error for `.endpoint`, in each copy's wording (src/lib.rs:268-275) |
| `Cases.TrailingDotToken` | src/sysctl.rs:192-199 | Test `invalid_token_ends_with_dot`: the token error for `endpoint.`, in each copy's wording (src/lib.rs:277-284) |
| `Cases.DoubleDotToken` | src/sysctl.rs:201-208 | Test `invalid_token_has_continuous_dots`: the token error for `end..point`, in each copy's wording (src/lib.rs:286-293) |
| `Cases.MissingEquals` | src/sysctl.rs:210-217 | Test `invalid_syntax`: the format error for `end.point.localhost:3000`, in each copy's wording (src/lib.rs:295-302) |

## Left out

- src/main.rs (reading files, command-line arguments, printing) is not part of this model; the texts are parameters.
- The `Debug` implementations (src/hashmap.rs:8-15, 80-84) are formatting only and are left out.
- Borrowed `&str` slices are modelled as string values, so lifetimes are not modelled.
- A boxed child node is held by value inside its parent. `Insert` lifts the child into an object of its own, updates it through the recursive call and stores it back. Sharing between nodes is therefore not modelled; the source rules it out anyway.
- HashMap.SysctlParameterHashMap.Get: no contract of its own. It reads the root's entries through `Lookup`, and the `Lookup…` and `Inserted…` lemmas state its behaviour.
- `str::lines` is modelled as a split at every line feed. It differs from Rust in two ways: it keeps a trailing empty line, and it keeps a `\r` before a line feed. The empty line is skipped as blank, and `trim` removes the `\r`, so parse results are the same.
- Validator.Validate: the order in which Rust's `HashMap` yields the schema entries is unspecified. The method picks the next key nondeterministically, so its contract says only that a failure is the error of some failing entry.
- Schema.ParseStr and Sysctl.ParseStr stop at the first failing line, like the source's `?`; the partial map is dropped, and no contract speaks about it.
- A multi-segment insert whose first segment holds a leaf does nothing (src/hashmap.rs:61-75): `contains_key` is true and `get_mut` finds a `V`. The model follows this (`HashMap.InsertedCases`, `HashMap.InsertedLookup`).
- Tests `sample1` of src/sysctl.rs (with `log.limit`) and `sample2` of src/sysctl.rs (five lines) are not stated as concrete documents. `Cases.ThreeEntries` and `Cases.SharedSubtree` state the shorter copies in src/lib.rs, and the general document lemmas cover the rest.
- Test `comments` is not stated as a concrete document. Its lines are covered by `Sysctl.ParseLineCases` (indented `#` and `;` lines are skipped once trimmed) and by `Sysctl.OnlyIgnoredLines`.
- The source has no tests for the schema parser or the validator; their behaviour is stated by the lemmas above.

# arguments_parser in Dafny

A model of the declarative command-line argument parser `ArgumentsParser`
(`arguments_parser.ts`). The parser has two phases, and the model covers both.

The constructor takes a schema that maps each key to an option descriptor and
validates it in one pass:

- every match string is unique across all named options;
- a named option lists at least one match string;
- a position is a non-negative integer;
- no two positional options share a position.

`parseArgs` scans a list of argument strings once, from left to right.

- A match string goes to its named option:
  - a flag stores `true`;
  - a multiple-value option collects the run of following tokens that are not match strings;
  - a single-value option takes the next token and rejects a second occurrence.
- Any other token fills the positional slot at the positional counter, when an option sits there; otherwise it is skipped.
- Every parsed value is checked against the option's choices.
- Defaults are then filled in under the keys still absent.
- Finally every required entry still unsatisfied is reported together, in one error.

Modules:

- `Descriptors`: the object literal of a schema entry (`OptionShape`) and the
  `names`/`position` guards. `Resolve` is the dispatch of a literal into the
  tagged union `Descriptor`.
- `Schema`: the constructor and its validity predicate `SchemaValid`, plus the
  lookup tables `names`, `nameAndOptions`, `positions` and `positionAndOptions`.
- `Parse`: the scan as specification functions (`Step`, `MatchName`,
  `FillSlot`, `Collect`, `Run`, `ApplyDefaults`, `Finish`, `ParseArgsSpec`).
  It also holds the imperative loops of the source as methods, each proved
  equal to its function (`LookupTables`, `CollectValues`, `ScanTokens`,
  `FillDefaults`, `ParseArgs`).
- `ParseProperties`: what each kind of token does to the scan state. It also
  holds the scan invariant (keys come from the schema, and each stored value
  has its option's kind and is within its choices). The invariant also says
  that exactly the slots below the counter are filled, and that the pending
  required entries are the required entries not yet satisfied. It is proved
  to hold in every state the scan reaches, and the end-to-end theorems about
  `parseArgs` follow from it.
- `Scenarios`: the scenarios of `arguments_parser_test.ts` stated on the
  model. The five schemas the constructor rejects are each shown to fail
  with the violation the constructor reports. Each argument list's parse
  outcome is fixed: the full parse returns exactly the expected object; a
  value outside the choices, the missing required options and a repeated
  option each fail with their error.
- `RoundTrip`: named options written out as arguments parse back to their
  values. Each option is written as one of its match strings followed by its
  tokens: none for a flag, one for a single-value option, and a run of
  non-match strings for a multiple-value option.

The value parsers are arbitrary pure functions `Token -> V`. `Token` is a
string, or `undefined` for the token after the last one. Values are of a
generic type `V` with equality, for the choices check. The result object is a
`map<string, ResultValue<V>>`. Errors are values:

- `SchemaError` for the constructor;
- `ParseError` for `parseArgs`: a value not in the choices, a duplicate
  argument, or the aggregated missing-required error.

A required flag is never satisfied: the deletion from `requires` sits only in
the non-flag branch (arguments_parser.ts:177-205), so every parse of a schema
with a required flag fails (`RequiredFlagFails`).

## Model

| member | source | states |
|---|---|---|
| Descriptors.Resolve | arguments_parser.ts:84-96 | the `names` guard is tried first: the descriptor is named exactly when the literal has `names`, positional otherwise, and every field is carried over unchanged |
| Descriptors.ResolveAll | arguments_parser.ts:83 | the schema in entry order: same length, entry `j` keeps its key and holds its literal resolved |
| Schema.FirstRepeat | arguments_parser.ts:88-95 | a reported duplicate is a `DuplicateName` naming one of the entry's own names |
| Schema.FirstRepeatSpec | arguments_parser.ts:88-95 | given the distinct names pushed so far, the name loop reports no duplicate exactly when those names plus the entry's names are all distinct |
| Schema.PushNames | arguments_parser.ts:88-95 | the name loop reports exactly the first repeated name, and when there is none every name has been pushed in order |
| Schema.CheckTarget | arguments_parser.ts:84-109 | one entry of the constructor loop fails with exactly the entry's first violation: empty names, a repeated name, a non-integer or negative position, or a repeated position. Otherwise it pushes the entry's names or position |
| Schema.NewArgumentsParser | arguments_parser.ts:80-111 | construction succeeds exactly when the schema is valid, and the parser then holds the resolved schema; on failure the error is that of the first entry that violates validity given the entries before it |
| Schema.ExtendNames | arguments_parser.ts:85-95 | appending a named entry keeps all match strings distinct and non-empty exactly when its list is non-empty and no name repeats; a positional entry keeps them so |
| Schema.ExtendPositions | arguments_parser.ts:97-108 | appending a positional entry keeps positions valid exactly when its position is a non-negative integer not yet used; a named entry keeps them so |
| Schema.ExtendValid | arguments_parser.ts:84-109 | for a valid prefix, the per-entry check passes exactly when the extended schema is valid |
| Schema.RejectAt | arguments_parser.ts:84-109 | an entry whose check fails after a valid prefix is the first violation, and the schema is invalid |
| Schema.FirstViolationUnique | arguments_parser.ts:83-110 | a schema has at most one first violation, so the entry and the error the constructor reports are determined by the schema |
| Schema.AcceptAt | arguments_parser.ts:84-109 | an entry whose check passes after a valid prefix extends the valid prefix by one |
| Schema.ValidPrefix | arguments_parser.ts:83-110 | validity is closed under prefixes, so a one-pass check that stops at the first violation is complete |
| Schema.SharedNameRejected | arguments_parser.ts:89-93 | two named options sharing a match string make the schema invalid |
| Schema.RepeatedNameRejected | arguments_parser.ts:89-93 | one named option listing a match string twice makes the schema invalid |
| Schema.SharedPositionRejected | arguments_parser.ts:103-107 | two positional options at the same position make the schema invalid |
| Schema.EntriesOf | arguments_parser.ts:161-164 | a named option contributes one `nameAndOptions` entry per name, in order, each with the key and the option |
| Schema.NameTableAligned | arguments_parser.ts:159-169 | `nameAndOptions` runs parallel to `names`: the same length, and entry `m` carries the name `names[m]` |
| Schema.NameTableNamed | arguments_parser.ts:160-164 | every `nameAndOptions` entry carries a named option, which justifies the source's cast at line 174 |
| Schema.PositionTableAligned | arguments_parser.ts:165-168 | `positionAndOptions` runs parallel to `positions` |
| Schema.TablesStep | arguments_parser.ts:159-169 | one iteration of the table loop appends exactly the current entry's names, name entries, position and position entry |
| Schema.FindName | arguments_parser.ts:173 | `find` returns the first entry whose name matches |
| Schema.FindPosition | arguments_parser.ts:209-210 | `find` returns the first entry whose position matches |
| Parse.RequirementOf | arguments_parser.ts:233-238 | a pending requirement is reported under its own key, with its names or its position |
| Parse.ChoicesCheck | arguments_parser.ts:46-53 | the check passes exactly when the value is among the choices; otherwise the error names the value and the choices |
| Parse.CheckValue | arguments_parser.ts:186-188 | a value passes exactly when the option has no choices or the value is among them |
| Parse.TokenAt | arguments_parser.ts:196 | `args[i + 1]` is the token there when inside the input and `undefined` past its end |
| Parse.Collect | arguments_parser.ts:184-190 | the inner loop of the multiple branch stops at an index no smaller than where it started and within the input |
| Parse.Step | arguments_parser.ts:170-224 | one iteration of the scan loop always advances the index, to at most one past the end of the input |
| Parse.MatchName | arguments_parser.ts:172-206 | the named-option branch always advances the index |
| Parse.FillSlot | arguments_parser.ts:208-223 | filling a positional slot consumes exactly one token |
| Parse.Run | arguments_parser.ts:170-225 | a scan that does not throw ends at or beyond the end of the input |
| Parse.RunAdvance | arguments_parser.ts:170-225 | the scan from a state inside the input is its first step followed by the scan from the state that step produces, or that step's error |
| Parse.Finish | arguments_parser.ts:226-242 | after the scan, `parseArgs` throws exactly when required entries are still pending; the error lists them all; otherwise the result is the scanned result with defaults applied |
| Parse.PushNameEntries | arguments_parser.ts:161-164 | the loop over one option's names appends all its names and one name entry per name |
| Parse.PushEntries | arguments_parser.ts:160-168 | one iteration of the table loop appends the entry's names and name entries, or its position and position entry |
| Parse.LookupTables | arguments_parser.ts:159-169 | the four lookup tables equal the schema's match strings, name entries, positions and position entries, in schema order |
| Parse.CollectValues | arguments_parser.ts:184-191 | the imperative multiple-value loop computes `Collect` |
| Parse.MatchOption | arguments_parser.ts:172-206 | the loop body for a match string computes `MatchName`, including the `i--` / `i++` index arithmetic |
| Parse.FillPosition | arguments_parser.ts:208-223 | the loop body for a positional token computes `FillSlot` |
| Parse.ScanStep | arguments_parser.ts:171-224 | the loop body, with lookups through the tables, computes `Step` |
| Parse.ScanTokens | arguments_parser.ts:170-225 | the imperative scan loop computes `Run` from the initial state |
| Parse.FillDefaults | arguments_parser.ts:226-230 | the defaults loop computes `ApplyDefaults` |
| Parse.ParseArgs | arguments_parser.ts:138-243 | `parseArgs` computes `ParseArgsSpec`, the scan followed by `Finish` |
| ParseProperties.NameTableEntry | arguments_parser.ts:159-164 | every `nameAndOptions` entry is some name of some named option of the schema, with that option's key and descriptor |
| ParseProperties.PositionTableEntry | arguments_parser.ts:165-168 | every `positionAndOptions` entry is the position, key and descriptor of some positional option |
| ParseProperties.NameLookup | arguments_parser.ts:172-176 | in a valid schema a match string has exactly one owning option, and the scan's `find` returns that owner's key and descriptor |
| ParseProperties.PositionLookup | arguments_parser.ts:208-213 | in a valid schema a declared position has exactly one owner, and `find` returns it |
| ParseProperties.DeclaredName | arguments_parser.ts:172 | `names.includes(arg)` holds exactly when some named option lists `arg` |
| ParseProperties.DeclaredPosition | arguments_parser.ts:208 | `positions.includes(position)` holds exactly when some positional option sits at `position` |
| ParseProperties.RunEnd | arguments_parser.ts:184 | the run after a multiple option is maximal: no token inside it is a match string, and it ends at the end of the input or at a match string |
| ParseProperties.Values | arguments_parser.ts:185-189 | the collected values are the tokens' parsed values, one per token, in order |
| ParseProperties.CollectAccepts | arguments_parser.ts:184-191 | when every value of the run is within the choices, the inner loop stops at the run's end and appends the run's parsed values, in order, to what it had |
| ParseProperties.CollectRejects | arguments_parser.ts:184-188 | otherwise the loop fails at the first token of the run whose value is outside the choices, and the error names that value |
| ParseProperties.CollectTake | arguments_parser.ts:184-190 | one admitted token of the run: the loop continues one token later with that token's value appended |
| ParseProperties.StepNamed | arguments_parser.ts:172-176 | at a match string the step runs the branch of the option that owns it |
| ParseProperties.MatchMultiple | arguments_parser.ts:180-191 | the multiple branch extends the existing array by the inner loop's values, continues where that loop stopped and deletes the key from `requires`; or it fails as that loop did |
| ParseProperties.StepFlag | arguments_parser.ts:177-178 | a flag stores `true` under its key, consumes only itself and leaves the pending requirements untouched |
| ParseProperties.StepMultiple | arguments_parser.ts:180-205 | a multiple option with an admitted run appends the run's values to its array, continues at the next match string or the end, deletes its key from `requires`, and is never a duplicate |
| ParseProperties.StepMultipleRejects | arguments_parser.ts:184-188 | a multiple option fails at exactly the first value of its run outside its choices |
| ParseProperties.StepDuplicate | arguments_parser.ts:193-195 | a single-value option whose key is already set fails with the duplication error for the token just read, whichever of its names it is |
| ParseProperties.StepSingle | arguments_parser.ts:196-205 | a single-value option seen for the first time parses the next token (even a match string, `undefined` past the end) and skips past it; the value is stored and its key deleted from `requires`, or the choices check fails |
| ParseProperties.StepPositional | arguments_parser.ts:208-213 | a token that is not a match string, with an option at the counter, goes to that option's slot |
| ParseProperties.StepSlot | arguments_parser.ts:208-222 | that slot stores the token's parsed value, deletes the key from `requires` and advances both the index and the counter; or the choices check fails |
| ParseProperties.StepSkip | arguments_parser.ts:207-224 | a token that is neither a match string nor at a declared slot is skipped; the counter stays where it is |
| ParseProperties.InitialPending | arguments_parser.ts:140-142 | the `requires` map starts as every required entry, in schema order |
| ParseProperties.RemoveSpec | arguments_parser.ts:203-205 | deleting a key from `requires` drops exactly the entries with that key and keeps the others |
| ParseProperties.RemovePending | arguments_parser.ts:203-205 | deleting the key of a non-flag option after setting it yields exactly the required entries the new result leaves unsatisfied |
| ParseProperties.FlagPending | arguments_parser.ts:177-178 | setting a flag's key leaves the unsatisfied required entries as they were |
| ParseProperties.PendingLists | arguments_parser.ts:231-240 | a required entry is in the missing list exactly when it is a flag or its key is absent, and the list holds nothing else |
| ParseProperties.InitInvariant | arguments_parser.ts:139-146 | the initial scan state (empty result, full `requires`, counter 0) satisfies the scan invariant |
| ParseProperties.PreserveNamed | arguments_parser.ts:172-205 | writing a well-typed value under a named option's key, with `requires` updated, keeps the scan invariant |
| ParseProperties.SlotsAdvance | arguments_parser.ts:218-222 | filling the slot at the counter and incrementing the counter keeps exactly the slots below the counter filled |
| ParseProperties.PreserveSlot | arguments_parser.ts:208-222 | filling the slot at the counter keeps the scan invariant |
| ParseProperties.PreserveSkip | arguments_parser.ts:207-224 | skipping a token keeps the scan invariant |
| ParseProperties.PreserveFlag | arguments_parser.ts:177-178 | a flag step always succeeds and keeps the scan invariant |
| ParseProperties.MultipleSucceeds | arguments_parser.ts:184-188 | a multiple option's step succeeds only when every value of its run is within the choices |
| ParseProperties.MultipleTyped | arguments_parser.ts:180-190 | the array a multiple option stores holds only values within its choices |
| ParseProperties.PreserveMultiple | arguments_parser.ts:180-205 | a successful multiple step keeps the scan invariant |
| ParseProperties.PreserveSingle | arguments_parser.ts:193-205 | a successful single-value step keeps the scan invariant |
| ParseProperties.StepPreserves | arguments_parser.ts:170-224 | every successful iteration of the scan loop keeps the scan invariant |
| ParseProperties.RunPreserves | arguments_parser.ts:170-225 | a successful scan from a state satisfying the invariant ends in one that satisfies it |
| ParseProperties.ScanReaches | arguments_parser.ts:170-225 | the state a successful scan ends in satisfies the scan invariant |
| ParseProperties.ExistingStored | arguments_parser.ts:181-189 | a multiple option's key, once present, always holds an array, so `push` always extends what was collected before |
| ParseProperties.SlotWriteFresh | arguments_parser.ts:208-218 | the slot at the counter is never already set: a positional write never overwrites |
| ParseProperties.GapBlocks | arguments_parser.ts:207-224 | when no option sits at position `n`, no positional option beyond `n` is ever filled |
| ParseProperties.DefaultsFill | arguments_parser.ts:226-230 | the defaults loop keeps every scanned key and its value; it adds a schema key exactly when the key is absent and has a default, and then stores that default |
| ParseProperties.ParseFailsOnMissing | arguments_parser.ts:231-241 | after a successful scan `parseArgs` throws exactly when some required entry is a flag or has no value; the error lists every such entry in schema order, and a default never satisfies a requirement |
| ParseProperties.RequiredFlagFails | arguments_parser.ts:177-205 | a schema with a required flag makes every `parseArgs` call fail |
| ParseProperties.ParseResult | arguments_parser.ts:138-242 | a successful `parseArgs` returns only schema keys. Each scanned value is kept unchanged and has its option's kind, within its choices. An absent key holds its default exactly when it has one. Every required option was set by the arguments themselves and is not a flag. A named option the scan set has one of its match strings among the arguments |
| ParseProperties.ParseGap | arguments_parser.ts:207-230 | a positional option beyond an undeclared position is never parsed: the result holds its default, or nothing |
| ParseProperties.NoDefaults | arguments_parser.ts:226-230 | when no option of the schema has a default, the defaults loop leaves the result as the scan left it |
| RoundTrip.StepGivenFlag | arguments_parser.ts:177-178 | reading a written flag moves the scan past its match string and sets `true` |
| RoundTrip.GivenRun | arguments_parser.ts:184-188 | a written multiple-value option's tokens are exactly the run its branch takes, and each is within the choices |
| RoundTrip.StepGivenMultiple | arguments_parser.ts:180-191 | reading a written multiple-value option moves the scan past its tokens and stores their parsed values in order |
| RoundTrip.StepGivenSingle | arguments_parser.ts:192-201 | reading a written single-value option moves the scan past its token and stores the parsed value |
| RoundTrip.StepGiven | arguments_parser.ts:170-205 | reading any written option moves the scan to the state before the next one |
| RoundTrip.RunGiven | arguments_parser.ts:170-225 | from the state before option `m` the scan reads the rest without throwing and ends with the expected object and the counter at 0 |
| RoundTrip.ScanGiven | arguments_parser.ts:170-225 | the scan over the written arguments succeeds with exactly the expected object |
| RoundTrip.RenderedParse | arguments_parser.ts:138-242 | the round trip: `parseArgs` on the written arguments succeeds exactly when every required option is a non-flag among those written. It then returns each written option's value as its tokens parse, and every other option's default or nothing. Otherwise it throws the missing-arguments error for the rest |
| Scenarios.LegalValid | arguments_parser_test.ts:9-41 | the constructor accepts the schema of two positional and five named options |
| Scenarios.LegalRun | arguments_parser_test.ts:43-55 | the scan of the eleven arguments does not throw, and it fills both positions, `name1`, `name2`, the three values of `name4` and the flag `name5` |
| Scenarios.LegalSucceeds | arguments_parser_test.ts:43-55 | after that scan no required entry is left: `name1` was given |
| Scenarios.LegalFunction | arguments_parser_test.ts:43-63 | the parse returns exactly `pos1` "posArg1", `pos2` "posArg2", `name1` "hoge", `name2` 4649, `name4` ["foo", "bar", "baz"] and `name5` true, with no `name3` |
| Scenarios.DuplicateNameOption | arguments_parser_test.ts:67-83 | two options sharing `--arg`: the second is the first violation, a duplicate name, and the schema is rejected |
| Scenarios.NoNameOption | arguments_parser_test.ts:85-97 | an option with an empty `names` list is rejected as the first violation |
| Scenarios.DuplicatePositionOption | arguments_parser_test.ts:99-115 | two options at position 0: the second is the first violation, a duplicate position |
| Scenarios.NonIntegerPosition | arguments_parser_test.ts:117-129 | position 1.5 is rejected as not an integer |
| Scenarios.NegativePosition | arguments_parser_test.ts:131-143 | position -1 is rejected as negative |
| Scenarios.OutOfChoices | arguments_parser_test.ts:145-162 | `-a d` with choices "a", "b" and "c" fails with the choices error naming "d" |
| Scenarios.MissingBoth | arguments_parser_test.ts:164-183 | with no arguments, one missing-required error names both required options, the positional one and then the named one |
| Scenarios.DuplicationArgs | arguments_parser_test.ts:185-203 | `--unique foo -u bar` fails with the duplication error for `-u` |

## Left out

- The host's argument vector (`args ?? Deno.args`, line 138): `ParseArgs` takes the argument list as a parameter.
- Positions that are `NaN` or infinite: positions are modelled as real numbers, and `Number.isInteger` as "equals its floor".
- The text of error messages: errors are datatypes that carry the values the messages interpolate, such as the names, the position, the value and the choices, or the missing requirements.
- The conditional return type of `parseArgs` (lines 119-136): it is a static typing aid with no runtime behaviour; the result is one map of `ResultValue`.
- Parser bodies: value parsers are arbitrary pure functions. A parser that throws is not modelled. The source calls the parser twice per multiple value (lines 185 and 189); with a pure parser both calls give the same value, and the model does the same.
- `ArgumentOptionBase` and the option classes' constructors (lines 1-44 apart from the guards): schema entries are plain object literals (`OptionShape`).
- `Object.entries` ordering of integer-like keys: the schema is a sequence in entry order, and its keys are assumed distinct (`KeysDistinct`), as object keys are.
- Parse.Existing: the non-array fallback `[]` for `result[key].push` on a present non-array value is never taken on a reachable state (`ExistingStored`), so a `push` onto a non-array is not modelled.
- The `requires` map is a sequence of `Requirement`, holding the key and the names or the position. `requires.has(key)` followed by `delete` is one filter (`Remove`).
- `"default" in v` with an explicit `undefined` default: a default is an `Option`, so such a default is treated as absent.
- Defaults are not checked against the choices, as in the source.
- Parse.Step: its own contract states only that the index advances, which makes the scan terminate. What each branch does is stated by the step lemmas of `ParseProperties` (`StepFlag`, `StepMultiple`, `StepMultipleRejects`, `StepDuplicate`, `StepSingle`, `StepSlot`, `StepSkip`).
- Parse.MatchName: its own contract states only that the index advances; its branches are stated by the same step lemmas and by `MatchMultiple`.
- Parse.FillSlot: its own contract states only that one token is consumed; the value, the deletion from `requires` and the counter are stated by `StepSlot`.
- Parse.Run: its own contract states only where the scan ends; what the scan produces is stated by `RunPreserves`, `ScanReaches` and `ParseResult`.
- Parse.Collect: its own contract states only bounds on where the inner loop stops; what it collects is stated by `CollectAccepts` and `CollectRejects`.
- Parse.RequirementOf: its own contract states only the key; which requirements are reported is stated by `PendingLists`.
- ParseProperties.StepSingle, ParseProperties.StepDuplicate, ParseProperties.DefaultsFill, ParseProperties.ParseResult and RoundTrip.RenderedParse assume that no schema key is a property every JavaScript object inherits (`toString`, `constructor`, `valueOf`, `hasOwnProperty`, `__proto__`, ...). The result object is a `map` that starts empty, whereas the source's `{}` answers its `key in result` tests (lines 181, 193 and 227) through `Object.prototype`. For such a key the source behaves differently:
  - a single-value option fails as a duplicate on its first occurrence;
  - a default is never applied;
  - a multiple-value option throws a TypeError at its first value.
- The example program is not part of this model.
- In the test scenarios, `Number` converts only non-empty strings of decimal digits. Every other token, the empty string included, becomes `NaN`. This differs from JavaScript, where `""` and blank strings are 0, whitespace is trimmed, and signs, fractions and exponents are numbers. `String` and `Boolean` follow JavaScript for strings and `undefined`.
- RoundTrip.RenderedParse covers named options only. Positional values are described one step at a time by `StepSlot`, `StepSkip` and `ParseGap`.

# gosert, modelled in Dafny

gosert is a Go library for JSON assertions in tests. The test author writes an
*expected* JSON document. Some string values in it are expressions rather than
literals:

- `{{BeEmpty()}}` and `{{Not(BeEmpty())}}` check emptiness.
- `{{BeTimestamp(<RFC 3339 time>, <ms>)}}` checks a time within a tolerance.
- `{{BeNumerically(<cmp>, <args>)}}` compares a number.
- `${{NAME}}` is a placeholder that is filled in with a variable.

The matcher walks the expected tree against the *actual* tree, dispatching on
the actual node's type:

- Strings are compared literally or by expression.
- Numbers are compared with a tolerance of 0.05, or by a `BeNumerically`
  expression.
- Booleans are compared case-insensitively.
- Objects are compared field by field. Extra actual fields are ignored. A
  missing field is accepted only when it expects `{{BeEmpty()}}`.
- `null` and missing actual nodes always match.
- Arrays of base values are compared as multisets.
- Arrays of objects are paired in one of two ways, and both at once is an error:
  - by the `_gst_index` meta field of each expected element;
  - by the `_gst_id` meta field (`key=value`).

The multipart reader splits a fixture file into keyed sections, using
`### key=<name>` header lines. It substitutes the variables into every
section, and returns a section as an object node that awaits matching.

The Dafny modules follow the Go packages:

| module | file | models |
|---|---|---|
| `Wrappers` | wrappers.dfy | `Option`, `Result` |
| `Text` | text.dfy | the `strings`/`strconv` functions the core calls (TrimSpace, Split, ReplaceAll, Atoi, Itoa, ToLower) |
| `Errors` | errors.dfy | the error values the core returns, one constructor per kind |
| `Default` | default.dfy | `matcher/default.go`: value types, nodes, the parser interface, the type predicates, `toBool` |
| `Matchers` | matchers.dfy | `matcher/matcher.go`: the success and failure matchers |
| `Expressions` | expressions.dfy | the expression patterns of `matcher/dsl.go`, `CreateStringMatcher`, `CreateNumberMatcher` |
| `Order` | order.dfy | Go's unspecified map iteration order, as an arbitrary enumeration |
| `Arrays` | arrays.dfy | `nodesContain`, `baseNodesEqual` |
| `Correlation` | correlation.dfy | `isArrayExpectedByIndex` and the three mapper builders |
| `Walker` | walker.dfy | `Walk`, `MatchArrayWithArray`, `MatchArrayWithString` |
| `WalkProperties` | walker_props.dfy | what a walk promises, as lemmas |
| `Substitution` | substitution.dfy | `Replace` and the `${{NAME}}` placeholder pattern |
| `Reader` | reader.dfy | `reader.go`: `newMultipartReader`, `MultipartReader`, `GetData`, `GetMatcher`, `UpdateVars` |

Several parts of the model are parameters rather than definitions:

- The JSON parser is a `Parser` value: an array, field and delete accessor plus
  an object validator. Its `Valid()` condition says that children are smaller
  than their parents.
- Float parsing, time parsing and the Gomega `BeNumerically` and
  `BeTemporally` matchers are the functions of a `Library` value.
- Go's map iteration order is `Order.Enumerate`, any duplicate-free listing of
  the keys. Every property proved holds for every such order.

The regular expressions of `matcher/dsl.go` and `reader.go` are written out by
hand as the functions `ParseTimestamp`, `ParseNumber`, `PlaceholderStart` and
`HeaderKey`. Each has a round-trip lemma against the text it recognises (`TimestampRoundTrip`, `NumberRoundTrip`, `PlaceholderStartOf`, `HeaderKeyOf`).

## Model

| member | source | states |
|---|---|---|
| Default.CodeName | matcher/default.go:39-58 | every type name is non-empty and has no comma |
| Default.CodeNameDefault | matcher/default.go:39-58 | a code prints as "NotExist" exactly when it is not one of the six declared types |
| Default.TypeNameInjective | matcher/default.go:39-58 | distinct value types print distinct names |
| Default.NodeString | matcher/default.go:67-69 | a node prints as "type = <name>, value = <value>": it starts with the type part, ends with the value and has exactly that length |
| Default.NodeStringInjective | matcher/default.go:67-69 | two nodes that print alike are equal |
| Default.NodesString | matcher/default.go:72-79 | a node list prints as its node texts joined by "\|" inside brackets |
| Default.NodesStringShapes | matcher/default.go:72-79 | the empty list prints "[]" and a single node prints "[<node>]" |
| Default.IsObjects | matcher/default.go:95-102 | true exactly when every node is an object |
| Default.IsBaseTypes | matcher/default.go:105-121 | true exactly when every node is a string, number, boolean or null |
| Default.BaseTypeExactly | matcher/default.go:105-111 | the base types are all types except NotExist, Object and Array |
| Default.BaseAndObjectsOnlyEmpty | matcher/default.go:95-121 | only the empty list is both all base values and all objects |
| Default.ToBool | matcher/default.go:128-137 | `Some(true)` exactly when the lower-cased text is "true", `Some(false)` exactly when it is "false", `None` otherwise |
| Default.ToBoolFormat | matcher/default.go:128-137 | "true"/"false" parse back to their value, in any case |
| Default.ToBoolIgnoresCase | matcher/default.go:128-137 | two texts equal after lower-casing parse alike |
| Matchers.Match | matcher/matcher.go:15-44 | true exactly for the success matcher, whose two messages are then empty; for a failure matcher the negated message is "Not " and the message |
| Matchers.NewFailureMatcher | matcher/matcher.go:35-39 | the message is "path = <path>, expected = <expected>, actual = <actual>": each of the three parts at its place, and nothing else |
| Matchers.FailureMessage | matcher/matcher.go:20-49 | empty for the success matcher; the failure matcher's message unchanged |
| Matchers.NegatedFailureMessage | matcher/matcher.go:25-54 | empty for success; for failure, "Not " followed by the failure message |
| Matchers.NewFailureNeverMatches | matcher/matcher.go:42-54 | a failure matcher never matches, and its messages start with "path = …" and "Not path = …" |
| Matchers.MessagesDiffer | matcher/matcher.go:15-54 | the negated message differs from the plain one exactly for failure matchers |
| Expressions.ParseTimestamp | matcher/dsl.go:17 | a match yields a 24-character UTC time, `\s*` spaces and delta digits that rebuild the input |
| Expressions.TimestampRoundTrip | matcher/dsl.go:17 | any timestamp expression of the pattern's shape parses back to its pieces |
| Expressions.ParseNumber | matcher/dsl.go:19 | a match yields a comma-free comparator, the `\s*` spaces and a non-empty data group without `)`, which rebuild the input |
| Expressions.NumberRoundTrip | matcher/dsl.go:19 | any numeric expression of the pattern's shape parses back to its pieces |
| Expressions.SplitDataOf | matcher/dsl.go:19 | greedy `\s*` takes the spaces but leaves the data group at least one character |
| Expressions.CreateStringMatcher | matcher/dsl.go:235-262 | BeEmpty and Not(BeEmpty) only for the exact literals; a timestamp matcher only for a pattern match, with its time; otherwise equality with the input; errors only from the timestamp branch |
| Expressions.LiteralsAreNotTimestamps | matcher/dsl.go:236-244 | the two emptiness literals never match the timestamp pattern |
| Expressions.IsBeEmpty | matcher/dsl.go:264-266 | true exactly for a String node whose whole text is `{{BeEmpty()}}`, a text that never reads as a timestamp expression |
| Expressions.PlainTextIsEquality | matcher/dsl.go:235-261 | text that is neither `{{BeEmpty()}}`, `{{Not(BeEmpty())}}` nor matches the timestamp pattern becomes an equality matcher |
| Expressions.TimestampMatcherDelta | matcher/dsl.go:244-257 | a well-formed timestamp expression gives its time and the delta in ms, converted to a 64-bit nanosecond Duration |
| Expressions.MatchString | matcher/dsl.go:45-48 | BeEmpty, Not(BeEmpty) and equality decide without error; only a timestamp matcher can fail with an error |
| Expressions.FloatsBefore | matcher/dsl.go:216-225 | every argument before the first bad one parses as a float |
| Expressions.ParseFloats | matcher/dsl.go:216-225 | succeeds exactly when every trimmed argument parses, keeping order; otherwise fails on the first bad argument |
| Expressions.AllFloats | matcher/dsl.go:216-225 | parsing succeeds exactly when every argument is a float |
| Expressions.CreateNumberMatcher | matcher/dsl.go:210-232 | non-matching input is a format error; success keeps the comparator and one argument per comma-separated piece |
| Expressions.NotNumericIsError | matcher/dsl.go:211-231 | input that does not start `{{BeNumerically(` is a format error |
| Expressions.NumberMatcherArgs | matcher/dsl.go:211-229 | a well-formed expression whose pieces are floats gives a matcher with its comparator |
| Expressions.Judge | matcher/dsl.go:60-74 | a Gomega verdict maps to matched exactly on a pass and to an error exactly on a fault |
| Text.TrimSpace | matcher/dsl.go:219 | the result neither starts nor ends with white space |
| Text.TrimLeftSuffix | matcher/dsl.go:219 | trimming on the left drops only white space from the front |
| Text.TrimRightPrefix | matcher/dsl.go:219 | trimming on the right drops only white space from the back |
| Text.Split | matcher/dsl.go:216 | one piece more than separators; the pieces joined by the separator give back the input; no piece holds it |
| Text.AtoiItoa | matcher/dsl.go:360 | every 64-bit integer printed in decimal parses back |
| Text.Wrap64 | matcher/dsl.go:253-257 | the result is a 64-bit value congruent to the input |
| Text.ReplaceAllFirst | matcher/dsl.go:451 | replacing every occurrence rewrites the first one and continues after it |
| Text.ReplaceAllAbsent | matcher/dsl.go:451 | a text without the pattern is left as it is |
| Arrays.NodesContain | matcher/dsl.go:286-309 | reports true exactly when every element of the subset can be paired with its own equal element of the set (multiset inclusion) |
| Arrays.BaseNodesEqual | matcher/dsl.go:277-279 | true exactly when the two arrays are equal as multisets |
| Arrays.BaseEqualIgnoresOrder | matcher/dsl.go:277-309 | swapping two actual elements does not change the verdict |
| Arrays.BaseEqualCountsDuplicates | matcher/dsl.go:277-309 | one extra copy of an element breaks equality |
| Correlation.StrategyFromSpec | matcher/dsl.go:314-337 | the scan fails with MixedStrategy or MissingStrategy exactly as the elements are mixed or unkeyed, and otherwise reports by-index exactly when some element has `_gst_index` |
| Correlation.Strategy | matcher/dsl.go:314-337 | succeeds exactly when every element has a meta key and the two kinds are not mixed; then by-index exactly when some element has `_gst_index` |
| Correlation.IsArrayExpectedByIndex | matcher/dsl.go:314-337 | the loop computes Strategy |
| Correlation.Strip | matcher/dsl.go:364-366 | removing the meta key leaves the other fields and no longer text |
| Correlation.FirstKeyless | matcher/dsl.go:352-372 | the first element without a key, or the count when all have one |
| Correlation.KeyedMapFails | matcher/dsl.go:352-372 | a mapper succeeds exactly when every element has a key, else fails with the first element's error |
| Correlation.KeyedMapEntries | matcher/dsl.go:352-372 | every element's key is in the map, and each entry holds the last element with that key |
| Correlation.FirstFailure | matcher/dsl.go:352-372 | the mapper fails with the error of the first element that has no key |
| Correlation.IndexOf | matcher/dsl.go:356-363 | an index exists exactly when `_gst_index` is present and parses as a 64-bit integer |
| Correlation.ExpectedIndexMapSpec | matcher/dsl.go:352-372 | the index map succeeds exactly when every element has an index; its entries are the elements without the meta key |
| Correlation.CreateExpectedIndexMapper | matcher/dsl.go:352-372 | the loop computes the index map |
| Correlation.IdOf | matcher/dsl.go:392-399 | succeeds exactly when `_gst_id` is present, a String and holds exactly one `=`, splitting it there into a key part and a value part that rejoin to it; otherwise `MissingIdKey` when absent, `IdNotString` with its type when not a String, `IdFormat` with its text when the `=` count is not one |
| Correlation.CreateExpectedIdMapper | matcher/dsl.go:387-414 | the loop computes the id map as written, including the empty-key-part sentinel |
| Correlation.AsWrittenFailure | matcher/dsl.go:387-414 | once the id mapper fails on a prefix, later elements do not change the outcome |
| Correlation.ExpectedIdMapSpec | matcher/dsl.go:384-414 | the corrected id map succeeds exactly when every element has an id whose key part equals the first; its entries are keyed by the value part |
| Correlation.AsWrittenAgreesWhenKeyed | matcher/dsl.go:401 | when no key part is empty, the mapper as written and the corrected one agree |
| Correlation.EmptyKeyPartSlipsThrough | matcher/dsl.go:401 | two elements with key parts "" and "k" pass the mapper as written but fail the corrected one |
| Correlation.ActualKeyOf | matcher/dsl.go:416-427 | an actual element's key is the value of its meta field, and its absence is ActualMissingKey |
| Correlation.CreateActualIdMapper | matcher/dsl.go:416-427 | the loop computes the actual id map |
| Correlation.ActualIdMapSpec | matcher/dsl.go:416-427 | succeeds exactly when every actual element has the meta field; each entry is an element carrying that id |
| Walker.Walk | matcher/dsl.go:35-129 | an error never comes with a match, and a success matcher always means a pass |
| Walker.MatchArrayWithArray | matcher/dsl.go:132-186 | an error never comes with a match, and a success matcher always means a pass; by id it uses the corrected id mapper (see Findings) |
| Walker.MatchArrayWithString | matcher/dsl.go:189-207 | passes exactly for BeEmpty with an empty array or Not(BeEmpty) with a non-empty one; any other string is an error; a non-string is the type error |
| WalkProperties.DispatchOnActualType | matcher/dsl.go:35-129 | null and missing actual nodes match; each type mismatch gives that type's error |
| WalkProperties.LiteralStringIsEquality | matcher/dsl.go:37-48 | a literal expected string passes exactly when equal to the actual one, never with an error |
| WalkProperties.EmptinessOfStrings | matcher/dsl.go:37-48 | BeEmpty passes exactly on "" and Not(BeEmpty) exactly on a non-empty string |
| WalkProperties.BooleanEquality | matcher/dsl.go:78-92 | booleans pass exactly when equal after parsing; unparsable texts give BoolSyntax; case does not matter |
| WalkProperties.NumberTolerance | matcher/dsl.go:62-74 | two numbers pass exactly when the library's "~" with tolerance 0.05 passes |
| WalkProperties.NumberExpressionOutcome | matcher/dsl.go:55-61 | a number under an expression passes exactly when the library passes it with the comparator and arguments |
| WalkProperties.NumberNeedsExpression | matcher/dsl.go:55-59 | a string that is not a numeric expression, against a number, is a format error |
| WalkProperties.FieldsLoopPasses | matcher/dsl.go:111-126 | the field loop passes exactly when each listed field passes |
| WalkProperties.ObjectMatch | matcher/dsl.go:102-128 | an object passes exactly when every expected field passes, in any key order |
| WalkProperties.ExtraFieldsIgnored | matcher/dsl.go:111-126 | actual objects that agree on the expected fields give the same verdict |
| WalkProperties.MissingFieldFails | matcher/dsl.go:114-118 | a missing field fails unless it expects BeEmpty |
| WalkProperties.InvalidObjectIsError | matcher/dsl.go:103-110 | an invalid actual or expected object is an InvalidObject error |
| WalkProperties.BaseArrays | matcher/dsl.go:133-140 | base arrays pass exactly when the actual array is all base values and equal as a multiset |
| WalkProperties.EmptyExpectedArray | matcher/dsl.go:133-140 | an empty expected array passes exactly against an empty actual array |
| WalkProperties.MixedArrayIsError | matcher/dsl.go:183-185 | neither all base nor all objects is the ArrayMixed error |
| WalkProperties.SchemaErrors | matcher/dsl.go:141-169 | each mapper failure is reported as the array's error, with the corrected id mapper |
| WalkProperties.IndexLoopPasses | matcher/dsl.go:151-160 | the index loop passes exactly when every position the map names passes |
| WalkProperties.ByIndexMatch | matcher/dsl.go:146-160 | a by-index array passes exactly when every actual position named by an expected index passes |
| WalkProperties.UnnamedPositionIgnored | matcher/dsl.go:151-160 | changing an actual element at a position no index names leaves the outcome unchanged |
| WalkProperties.IndexLoopSkips | matcher/dsl.go:151-160 | the loop never looks at unnamed positions |
| WalkProperties.IdLoopPasses | matcher/dsl.go:170-181 | the id loop passes exactly when each expected id is present and passes |
| WalkProperties.ByIdMatch | matcher/dsl.go:161-181 | a by-id array passes exactly when every expected id names an actual element that passes, in any order (corrected id mapper) |
| WalkProperties.MissingIdFails | matcher/dsl.go:170-174 | an expected id that no actual element has fails (corrected id mapper) |
| Substitution.Placeholder | matcher/dsl.go:25 | `${{NAME}}` is five characters longer than the name and starts with its only `$` |
| Substitution.PlaceholderStart | matcher/dsl.go:25 | a recognised placeholder has a non-empty word name and starts the text |
| Substitution.PlaceholderStartOf | matcher/dsl.go:25 | a placeholder of a word name is recognised with that name |
| Substitution.NamesExactly | matcher/dsl.go:435-439 | a name is found exactly when it is a non-empty word and its placeholder occurs |
| Substitution.NoDollarNoNames | matcher/dsl.go:435-439 | a text without `$` has no placeholders |
| Substitution.CollectNames | matcher/dsl.go:435-439 | the scan collects exactly the placeholder names |
| Substitution.ListNames | matcher/dsl.go:440-443 | the key listing is a duplicate-free enumeration of the set |
| Substitution.Replace | matcher/dsl.go:434-455 | fails exactly when some named variable is undefined, and names it; when every `$` of the text opens a placeholder and no value holds `$`, the result is the one-pass substitution `Subst` and names no variable |
| Substitution.NoNamesUnchanged | matcher/dsl.go:434-455 | a text without placeholders is returned unchanged |
| Substitution.ReplaceEveryOccurrence | matcher/dsl.go:451 | every occurrence of the placeholder is replaced, not only the first |
| Substitution.NamesOfJoined | matcher/dsl.go:435-443 | a text of `$`-free segments joined by one placeholder names only that variable |
| Substitution.OneNameEverywhere | matcher/dsl.go:434-455 | with one variable, the result is the segments joined by its value |
| Substitution.SubstThenReplace | matcher/dsl.go:446-451 | rewriting one more name after a pass is the pass with that name defined |
| Substitution.SubstNothing | matcher/dsl.go:446-451 | a pass with no variables returns the text |
| Substitution.SubstAgree | matcher/dsl.go:446-451 | the pass depends only on the variables the text names |
| Substitution.Restrict | matcher/dsl.go:446-451 | the variables the processed names define, with their values |
| Substitution.ReplaceInOrderIsPass | matcher/dsl.go:446-451 | the name-by-name loop over distinct names is one pass over the variables it has processed |
| Substitution.OrderIrrelevant | matcher/dsl.go:440-451 | with no stray `$` and no `$` in a value, every key order gives the one-pass result |
| Substitution.SubstLeavesNoDollar | matcher/dsl.go:446-451 | under the same conditions the result holds no `$` |
| Substitution.SubstitutionComplete | matcher/dsl.go:434-455 | under the same conditions the possible results are exactly the one-pass result, and it names no variable |
| Substitution.SubstKeepsDollarFree | matcher/dsl.go:446-451 | text without `$`, `{{...}}` expressions included, is copied unchanged |
| Substitution.OrderMatters | matcher/dsl.go:440-451 | for `$${{a}}{{b}}${{b}}`, `a` empty and `b` any `$`-free value, the two key orders give two different results |
| Reader.HeaderKey | reader.go:19 | none exactly when no `key=` is followed by a word character; otherwise the whole word run after the leftmost `key=` that a word character follows |
| Reader.LeftmostKey | reader.go:19 | the leftmost position where `key=` is followed by a word character decides the key: the word run after it |
| Reader.HeaderKeyOf | reader.go:19 | a header whose first such match is `key=<w>`, followed by a non-word character or the end, yields `w` |
| Reader.Classify | reader.go:99-103 | a blank or `# ` line is ignored; a `###` line is a header with its key; anything else is body |
| Reader.ScanLines | reader.go:91-96 | no line holds a line feed |
| Reader.ScanLinesCons | reader.go:91-96 | a line that ends in line feed and not CR is split off as it is |
| Reader.ScanRaw | reader.go:96-98 | when no line holds a line feed or ends in CR, rejoining the lines with line feeds and scanning again gives them back |
| Reader.ReparseSameLines | reader.go:172-179 | when no scanned line ends in CR, rescanning the stored raw text gives back the same lines |
| Reader.ScanLine | reader.go:96-129 | one scan step keeps the state invariant and never reports a header without a key |
| Reader.Sections | reader.go:90-147 | every section has a non-empty key and a non-empty body |
| Reader.IgnoredLineInvisible | reader.go:99-102 | inserting a blank or comment line anywhere does not change the scan |
| Reader.BodyBeforeKey | reader.go:122-125 | a body line before the first header is BodyWithoutKey |
| Reader.BodyWithoutKeyStops | reader.go:122-125 | a body line while no key is set ends the whole scan with BodyWithoutKey |
| Reader.HeaderClosesUndefined | reader.go:103-113 | a header closing a body that names an undefined variable makes it the first undefined variable of the file |
| Reader.SkipIgnored | reader.go:99-102 | leading ignored lines do not change the scan |
| Reader.KeyedScanSucceeds | reader.go:96-129 | once a key is set the scan cannot fail, and the sections only grow |
| Reader.HeaderWithoutKeyUnreachable | reader.go:105-108 | the `key == ""` error can never happen |
| Reader.HeaderKeys | reader.go:103-121 | a header flushes the pending body into a section, and sets the key when it names one |
| Reader.PartsOfExtend | reader.go:109-113 | substituting one more section extends the parts, a later section with the same key replacing the earlier |
| Reader.Record | reader.go:109-113 | substitution of one section fails exactly when it names an undefined variable |
| Reader.ScanParts | reader.go:90-140 | the loop computes the sections, and either all their parts or the first undefined variable |
| Reader.ReadParts | reader.go:90-147 | a scan error is returned; otherwise fails exactly when some section names an undefined variable; on success the parts are the substituted last bodies |
| Reader.MultipartReader.New | reader.go:66-69 | a reader exactly when there is no error; it keeps the rejoined lines and the substituted parts |
| Reader.MultipartReader.GetData | reader.go:150-152 | the part for a key, or "" when there is none |
| Reader.MultipartReader.GetMatcher | reader.go:155-160 | an unknown key is NoSuchKey; a known key yields the part as an object node, or fails when a placeholder remains |
| Reader.MultipartReader.UpdateVars | reader.go:172-179 | the raw text is kept; the parts are recomputed with the new variables, and kept as they were on error |

## Left out

- I/O: reading files (`Read`, `MustRead`, `NewMultipartReaderFromFile`) and the `Must*` panics. The reader takes the file's content as a string.
- JSON parsing (`matcher/json.go`) is a `Parser` value. Its accessors are parameters, constrained only by `Parser.Valid()`.
- Floating point, time parsing and the Gomega `BeNumerically`/`BeTemporally` matchers are the functions of a `Library` value.
- The regular expression engine. Each pattern is written out as a function and proved against its shape.
- Go's map iteration order is any enumeration of the keys. The model does not fix the order Go takes.
- Error texts. Each error is a constructor of `Errors.Error`, not a formatted message.
- `bufio.Scanner`'s token size limit and its read errors.
- `Default.ToBool`: `strings.ToLower` is modelled on ASCII letters only, because Unicode case mapping is not part of Dafny.
- Text is a sequence of code points. Go's strings are bytes; the two agree on ASCII input.
- `Reader.MultipartReader.UpdateVars`: a line ending in two carriage returns is not stored again exactly. `ScanLines` drops one CR, so rescanning the stored text can cut such a line differently; `ReparseSameLines` holds only when no line ends in CR.
- The `parser` field of `MultipartReader` and the `gosert.go` front end, apart from the object node that `GetMatcher` returns.
- `mapSubexpNames` (matcher/dsl.go:268-275) maps the named groups of a regular expression match; the parsers of the timestamp and number patterns return their groups directly instead.
- `Walker.MatchArrayWithArray`: the by-id branch pairs elements through the corrected `ExpectedIdMap`, not the `ExpectedIdMapAsWritten` that matcher/dsl.go:162 calls. For expected ids "=a" and "k=b" the model reports `IdKeyMismatch`, where the source goes on with meta key "k". When no key part is empty the two mappers agree (`Correlation.AsWrittenAgreesWhenKeyed`).
- `Substitution.Replace`: the result is tied to `Subst` only when every `$` of the text opens a placeholder and no value holds `$`. Otherwise the result can depend on Go's map order (`Substitution.OrderMatters`), and the model states only that it is one of the orders' results (`ReplacesTo`).
- `Walker.Walk`: in the numeric expression case the source returns a failure matcher even on a pass. The model keeps this, so a passing walk there is `Passed` but carries a failure matcher.

## Findings

| source | as written | input that shows it | evidently intended | confidence | as-written member | corrected member |
|---|---|---|---|---|---|---|
| matcher/dsl.go:401 | the key part of each `_gst_id` must equal the first element's, but the test is skipped while the first key part is "" | first element `_gst_id` = "=a", second = "k=b": both accepted, with meta key "k" | every element's key part equals the first element's (the comment at matcher/dsl.go:384-386) | not executed | Correlation.ExpectedIdMapAsWritten, Correlation.EmptyKeyPartSlipsThrough | Correlation.ExpectedIdMap, Correlation.ExpectedIdMapSpec |

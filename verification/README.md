# Verified model of the my-sqweel row store

The model covers the parts of the MySQL-compatible row store whose correctness spans several
functions:

* the engine's tables with everything kept beside them: the unique lookup of a statement, the
  single-column secondary indexes, the delete and persist sets that become one storage batch, the
  auto-increment counters and the stored copy of the rows, under INSERT (plain, IGNORE, REPLACE,
  overwrite, ON DUPLICATE KEY UPDATE), DELETE, DELETE IGNORE, UPDATE and TRUNCATE;
* foreign keys: the recursive actions of a DELETE and the one-pass actions of an UPDATE;
* the JSON path functions: get, set, remove, wildcards, parser, printer, array insertion, merge patch;
* the bounded edit distance and the match ranges of the search endpoint;
* the three SQL text scanners and the storage encoding.

## How the model is built

Code that changes state step by step is a class or a method with loops: `Engine.Engine` (fields
`rows`, `indexes`, `autoInc` and the store), `Storage.RedisStore`, the path walks, the scanners, the
two-row table. Each method is proved against a function that says what it computes in the simplest
way (`Inserting.InsertRows`, `DeleteIntegrity.DeleteRows`, `UpdateSteps.Walk`, `Json.SetAt` and so
on), and the properties are proved of those functions. Maps stand for the source's ordered maps:
where the order of iteration could matter it is a parameter or is chosen arbitrarily.

`Catalog.Library` collects what is taken as given: SQL equality, JSON writing and reading, the view
of a row through the current schema, and the first key of an ordered set. Statements that need more
than a function say so (`SqlEquality`, `PicksMembers`). `Settings.enforcesUniqueness` is strict mode or the enforcing mode.

| module | content |
|---|---|
| `Catalog`, `Inserting`, `Placing`, `UniqueKeys`, `Grouping`, `Indexes`, `AutoIncrement` | rows, schemas, INSERT in its simple form and what it does to a table, when unique keys are equal, the unique lookup and the indexes against their rebuilt forms, generated ids |
| `ForeignKeys`, `DeleteIntegrity`, `DeleteClosure`, `DeleteCycles`, `DeleteNulls`, `IgnoredDeletes` | the delete actions, integrity after every write, the set of rows visited, when they are the rows removed, what is nulled, and which rows a DELETE IGNORE passes over |
| `ParentUpdate`, `UpdateSteps`, `UpdateMeaning` | the update actions, the rows an UPDATE makes and loses, and what becomes of each row and each child |
| `Engine` | the statements as methods on mutable state |
| `Runs`, `RunIntegrity`, `FailedInserts` | whole runs of statements: unique keys, referential integrity; INSERTs that fail midway |
| `StorageFormat`, `Storage`, `Utf8`, `Text` | keys, values and rows as stored; batches; reloading |
| `Json`, `JsonPath`, `PathSpelling`, `JsonMatch`, `MergePatch` | the JSON path algebra and the spellings of paths |
| `EditDistance`, `Highlight`, `SqlScan`, `SqlMeaning` | edit distance, match ranges, SQL scanners, what literals and quotes mean |
| `Wrappers` | the option type |

## What the code does that one might not expect

* An UPDATE that moves a row to the key of a later row loses one of the two without an error
  (`UpdateSteps.RowCountKeptIff`). If the later row is not itself updated, memory keeps that row while
  the batch and the index have the moved one, so a restart shows other rows
  (`UpdateSteps.SecondRowSwallowsFirst`, exactly when: `Engine.Engine.UpdateRows`).
* On a composite primary key an updated row gets the first key column alone as its key
  (`UpdateSteps.CompositeKeysMeet`, exactly when the id changes: `UpdateSteps.UpdateKeepsIdIff`).
* A DELETE takes the least closed set out of the store, but a table that is taken up again while rows
  of it are being dealt with is written back in memory from a snapshot, and rows come back
  (`DeleteCycles.SecondOfTwoComesBack`, `DeleteCycles.GrandchildComesBack`; exactly when:
  `DeleteCycles.DeleteRemovesThemIffCalm` and, for a table with keys on itself,
  `DeleteCycles.CalmIffOwnChildrenSelected`).
* Whether a RESTRICT stops a DELETE can depend on the order of the keys
  (`DeleteClosure.RestrictDependsOnOrder`); it cannot when only CASCADE keys match rows of the closed
  set (`DeleteClosure.DeleteSucceeds`).
* An INSERT that fails at a later row keeps the earlier rows in memory but stores nothing; a failing
  ON DUPLICATE KEY UPDATE leaves its first assignments in memory, without lookup and index
  (`FailedInserts.FirstRowStaysInMemory`, `FailedInserts.MergedRowIsFiledUnderOldValue`; exactly when:
  `Engine.Engine.InsertPreparedRows`).
* ON DUPLICATE KEY UPDATE does not check unique keys again (`Inserting.OnDuplicateKeepsUniqueIff`).
* An UPDATE does not raise the auto-increment counter (`AutoIncrement.UpdatedIdIsOvertaken`, exactly
  when ids stay fresh: `AutoIncrement.UpdateKeepsFreshIff`).
* A generated identity is written after the foreign-key check of INSERT and may refer to no parent
  (`RunIntegrity.GeneratedIdIsOrphan`, exactly when: `RunIntegrity.InsertRowKeepsIntegrityIff`).
* TRUNCATE clears counters by name prefix: truncating `a` also clears those of a table named `a:b`
  (`AutoIncrement.TruncatedPrefixRepeatsId`, exactly when ids stay fresh:
  `AutoIncrement.TruncateKeepsFreshIff`).
* Patterns with two recursive tokens yield nodes more than once, and no others do
  (`JsonMatch.YieldsTwiceIff`).
* The binder does not know backticks, the splitter does (`SqlScan.BackticksDivideTheMachines`, exactly
  when they agree: `SqlScan.BindingCommutesIff`).
* A unique key over several columns is joined with U+001F, which a string may hold: different values can
  have one key (`UniqueKeys.SeparatorMovesValues`, exactly when keys and values agree:
  `UniqueKeys.EqualKeysIff`).
* The printer does not quote keys, so insertion below a key with a dot goes astray
  (`JsonMatch.QuotedParentIsLost`, exactly when: `JsonMatch.InsertGoesHomeIff`).

## Model

| member | source | states |
|---|---|---|
| EditDistance.LevenshteinAtMost | src/server/debug_http.rs:4375-4402 | the answer is true exactly when some script of at most `maxDistance` single-character insertions, deletions and substitutions turns one text into the other, with the length prefilter, the two swapped row buffers and the early exit |
| EditDistance.FillRow | src/server/debug_http.rs:4386-4394 | one row of the table is computed in place from the row above, and the least entry of the row is returned |
| EditDistance.DistIsEditDistance | src/server/debug_http.rs:4375-4402 | the tabulated number is the least length of an edit script, scripts being applied at any position in any order |
| EditDistance.NoScriptIsShorter | src/server/debug_http.rs:4375-4402 | no script that turns one text into the other is shorter than the tabulated number |
| EditDistance.OptimalScript | src/server/debug_http.rs:4375-4402 | a script of exactly the tabulated length exists |
| EditDistance.SomeEntryOfEachRowIsBelow | src/server/debug_http.rs:4395-4397 | every row of the table has an entry not above the final one, so leaving as soon as a whole row exceeds the bound is right |
| EditDistance.DistAtLeastLengthGap | src/server/debug_http.rs:4378-4380 | the distance is at least the difference of the lengths, so the prefilter only rejects what would be rejected anyway |
| Highlight.MatchRanges | src/server/debug_http.rs:4556-4588 | the ranges are in bounds, sorted, separated by gaps, and cover exactly the positions of the greedy left-to-right occurrences of the terms |
| Highlight.MatchRangesAreUnique | src/server/debug_http.rs:4556-4588 | those two facts determine the ranges: order and repetition of the terms make no difference |
| Highlight.SeparatedListIsCanonical | src/server/debug_http.rs:4577-4587 | a separated list of ranges is determined by the positions it covers |
| Highlight.ScanTerm | src/server/debug_http.rs:4559-4575 | the scan for one term adds exactly its greedy occurrences |
| Highlight.MergeRanges | src/server/debug_http.rs:4577-4588 | merging a sorted list in one pass keeps the positions covered and leaves gaps between ranges |
| Highlight.GreedyIsDisjoint | src/server/debug_http.rs:4564-4574 | the occurrences scanned are real, in order and do not overlap |
| Highlight.GreedyIsMaximal | src/server/debug_http.rs:4564-4574 | every occurrence of the term begins inside one that was scanned |
| Highlight.SortSorts | src/server/debug_http.rs:4576 | the sort orders the ranges by start, the longer first of two with one start, and keeps them all |
| Highlight.HighlightText | src/server/debug_http.rs:4527-4547 | the output is the text with one tag pair around each match range; the guard that skips a range is never taken |
| Highlight.ErasingTagsRestoresText | src/server/debug_http.rs:4527-4547 | taking the inserted tags out again gives the text back |
| Highlight.OneTagPairPerRange | src/server/debug_http.rs:4527-4547 | the output is longer than the text by one tag pair for each range |
| Highlight.TagsStandAround | src/server/debug_http.rs:4527-4547 | around the text of each range stand the opening and the closing tag themselves, at the place that the tags of the ranges before it leave |
| Highlight.OccurrencesAreOnBoundaries | src/server/debug_http.rs:4569-4571 | on well-formed UTF-8 the character-boundary test never drops an occurrence |
| Highlight.OccursIff | src/server/debug_http.rs:4556-4566 | a term is found exactly where the bytes of the text, ASCII capitals taken for their small letters, are the bytes of the term |
| Json.SetTokens | src/sql/engine/eval/json.rs:1264-1322 | walking a mutable reference down the path and writing at its end is the recursive write, including padded arrays and replaced containers |
| Json.RemoveTokens | src/sql/engine/eval/json.rs:1324-1374 | walking down and removing in place is the recursive removal |
| Json.PadInPlace | src/sql/engine/eval/json.rs:1289-1294 | arrays are filled up to the index with the filler of that place |
| Json.GetAfterSet | src/sql/engine/eval/json.rs:1138-1322 | what was written at a wildcard-free path is read there, and the write succeeds |
| Json.SetWhatWasRead | src/sql/engine/eval/json.rs:1138-1322 | writing back what was read changes nothing |
| Json.SecondSetWins | src/sql/engine/eval/json.rs:1264-1322 | of two writes at one path the second wins |
| Json.SetKeepsDivergingPaths | src/sql/engine/eval/json.rs:1264-1322 | a value read at a path that parts at a token of the same kind survives the write |
| Json.ReadBesideWrite | src/sql/engine/eval/json.rs:1264-1322 | what any path that parts from the written one reads afterwards: the old value if the container kept its kind, the filler below the written index (SQL null at the last token, JSON null above it), and else nothing |
| Json.ReadBelowWrite | src/sql/engine/eval/json.rs:1264-1322 | paths beyond the written one read inside the value written |
| Json.RemoveSucceedsIffPresent | src/sql/engine/eval/json.rs:1324-1374 | removal at a non-empty path succeeds exactly where there is a value, and otherwise changes nothing |
| Json.RemoveEditsParent | src/sql/engine/eval/json.rs:1324-1374 | a successful removal takes exactly the last step out of its container |
| Json.RemoveKeepsDivergingPaths | src/sql/engine/eval/json.rs:1324-1374 | values at paths that part from the removed one survive; behind a removed array element they are found one index lower, everywhere else at the same path |
| Json.RemoveUndoesAdd | src/sql/engine/eval/json.rs:1264-1374 | removing what a write has added gives the document back |
| JsonPath.ParseJsonPath | src/sql/engine/eval/json.rs:1376-1451 | the character loop parses the path grammar: all tokens, or nothing |
| JsonPath.TakeToken | src/sql/engine/eval/json.rs:1386-1448 | one step of the loop reads one token of the grammar and stops right behind it |
| JsonPath.TakeQuoted | src/sql/engine/eval/json.rs:1453-1470 | a quoted part is read up to its closing quote, escapes undone |
| PathSpelling.PathIsSpelled | src/sql/engine/eval/json.rs:1376-1470 | a text is a path with given tokens exactly when it is, trimmed, a dollar sign and spellings of these tokens one after the other: `.key`, `.*`, `.**`, quoted keys, `[*]`, `[**]` and indexes, each with what may stand behind it |
| PathSpelling.StepIsRead | src/sql/engine/eval/json.rs:1386-1448 | each spelling is read as its token, up to its end, in any text |
| Text.ParseDigitsIff | src/sql/engine/eval/json.rs:1444 | a text is read as a number exactly when it has decimal digits only, at least one |
| Text.LeadingZerosDoNotCount | src/sql/engine/eval/json.rs:1444 | and the number is the one printed, behind any zeros |
| JsonPath.ParsePrinted | src/sql/engine/eval/json.rs:1082-1093 | parsing a printed path returns its tokens, when its keys are plain, its indexes fit and no key at the end has trailing whitespace |
| JsonPath.RoundTripIffPrintable | src/sql/engine/eval/json.rs:1082-1093 | for all token lists: a printed path reads back exactly when it is printable |
| JsonPath.QuotedKeysDoNotReadBack | src/sql/engine/eval/json.rs:1453-1470 | a key that begins with a quote never reads back as itself |
| JsonMatch.Collect | src/sql/engine/eval/json.rs:1174-1262 | every (path, value) is emitted exactly as often as the pattern can be read as the path, and only if the path denotes that value |
| JsonMatch.ExtractMatches | src/sql/engine/eval/json.rs:1158-1172 | the same for a pattern given as text; nothing for text that does not parse |
| JsonMatch.UndividedPathsPrintApart | src/sql/engine/eval/json.rs:1174-1262 | the path texts reported for different nodes differ when no key has a dot or an opening bracket |
| JsonMatch.ReportedPathsDiffer | src/sql/engine/eval/json.rs:1174-1262 | so under such keys a pattern with at most one recursive token reports pairwise different path texts |
| JsonMatch.SplitKeyPrintsAlike | src/sql/engine/eval/json.rs:1082-1093 | a key with a dot is always reported like the path of the two keys it is made of |
| JsonMatch.SomeWayIffMatches | src/sql/engine/eval/json.rs:1174-1262 | a path can be read from the pattern in at least one way exactly when it matches it |
| JsonMatch.OneRecursiveMatchesOnce | src/sql/engine/eval/json.rs:1174-1262 | with at most one recursive token there are no duplicates |
| JsonMatch.TwoRecursivesMatchTwice | src/sql/engine/eval/json.rs:1233-1260 | every pattern with two recursive tokens can be read as some path in two ways |
| JsonMatch.YieldsTwiceIff | src/sql/engine/eval/json.rs:1174-1262 | some document has a node that the pattern yields twice exactly when the pattern has at least two recursive tokens |
| JsonMatch.FoundIffMatched | src/sql/engine/eval/json.rs:1174-1262 | a node is found exactly when the pattern matches its path, and found once if there is at most one recursive token |
| JsonMatch.MatchingAgreesWithGet | src/sql/engine/eval/json.rs:1138-1172 | on wildcard-free patterns matching agrees with plain extraction |
| JsonMatch.JsonExtractPath | src/sql/engine/eval/json.rs:1138-1156 | a wildcard-free path reads the value it denotes; a pattern yields nothing if nothing matches, and else the array of the values of all matches, each as often as the pattern reads as its path |
| JsonMatch.JsonSetPath | src/sql/engine/eval/json.rs:1264-1322 | writing at a path given as text is writing at its tokens; text that does not parse changes nothing |
| JsonMatch.JsonRemovePath | src/sql/engine/eval/json.rs:1324-1374 | the same for removal |
| JsonMatch.JsonArrayInsertPath | src/sql/engine/eval/json.rs:1051-1080 | array insertion happens at the path that the printed parent path is read back as, and nowhere if it reads back as nothing or as a pattern |
| JsonMatch.InsertShifts | src/sql/engine/eval/json.rs:1051-1080 | the element is read at its index, the elements before it stay, those behind it are read one index higher; the insertion takes place exactly when there is an array that reaches up to the index |
| JsonMatch.InsertGoesHomeIff | src/sql/engine/eval/json.rs:1051-1080 | for a wildcard-free path that ends in an index: the element goes where it is meant to go, in all documents, exactly when the parent path is printable |
| JsonMatch.QuotedParentIsLost | src/sql/engine/eval/json.rs:1068-1079 | the case of a key with a dot: the array is there, and the insertion reports failure and changes nothing |
| JsonMatch.QuotedPathParses | src/sql/engine/eval/json.rs:1376-1470 | a path with such a key in quotes does parse |
| JsonMatch.StoppedWriteChangesNothing | src/sql/engine/eval/json.rs:1264-1322 | a write through a wildcard that matches something leaves the document as it was |
| MergePatch.JsonMergePatchValue | src/sql/engine/eval/json.rs:591-608 | the loop over the members of an owned object computes the merge of section 2 of RFC 7396, in any order of members |
| MergePatch.PatchTwiceIsPatchOnce | src/sql/engine/eval/json.rs:591-608 | applying a patch twice is applying it once |
| MergePatch.UnmentionedPathsSurvive | src/sql/engine/eval/json.rs:591-608 | values below keys the patch leaves out survive |
| MergePatch.MentionedPathsAreWritten | src/sql/engine/eval/json.rs:591-608 | values the patch ends at are written, and nulls remove |
| SqlScan.SubstituteParams | src/sql/engine/values.rs:744-781 | binding fails with too few or too many parameters and otherwise replaces the marks outside quotes in order; it succeeds exactly when the number of parameters is the one counted |
| SqlMeaning.LiteralReadsBack | src/sql/engine/values.rs:783-800 | an SQL reader of NULL, TRUE, FALSE, decimal integers and quoted text reads every literal back as the value, and an array or object as its JSON text |
| SqlMeaning.BoundIsWoven | src/sql/engine/values.rs:744-781 | a template is stretches of text with a mark between each two, and the bound text is the same stretches with the literals in their order between them |
| SqlMeaning.QuotedTextStays | src/sql/engine/values.rs:744-781 | a quoted text of either kind, with its backslash escapes, holds no marks and no cuts and stays as it is |
| SqlMeaning.UnclosedTextStays | src/sql/engine/values.rs:744-781 | the same for a quote that is never closed, up to the end of the text |
| SqlMeaning.QuotesCloseOrDoNot | src/sql/engine/values.rs:744-781 | behind an opening quote every text is of one of these two kinds |
| SqlMeaning.OutsideQuotes | src/sql/engine/values.rs:744-781 | outside quotes a question mark is a mark, a semicolon cuts, and every other character stays |
| SqlScan.CountQueryParams | src/server/mysql_wire.rs:1692-1713 | the wire front end counts the same marks |
| SqlScan.SplitSqlStatements | src/sql/engine/compat.rs:17-64 | the text is cut at the semicolons outside quotes and backticks; trimmed pieces that are empty are dropped |
| SqlMeaning.BacktickedNameStays | src/sql/engine/compat.rs:17-64 | the splitter never cuts a name in backticks |
| SqlMeaning.StatementsAre | src/sql/engine/compat.rs:17-64 | the statements are the trimmed pieces that are not blank, each once and in order |
| Text.TrimIs | src/sql/engine/compat.rs:17-64 | trimming takes whitespace from both ends, and leaves none there |
| SqlScan.LiteralIsSelfContained | src/sql/engine/values.rs:783-800 | whatever a value holds, its literal is one unit to the splitter: no cut inside, no open quote after it, no whitespace at its ends |
| SqlScan.TwoReplacementsEscape | src/sql/engine/values.rs:783-800 | doubling backslashes and then quotes escapes each character once |
| SqlScan.BoundPieces | src/sql/engine/values.rs:744-781 | where the four machines do not part, cutting the bound text gives the pieces of the template, each bound on its own |
| SqlScan.BindingCommutesIff | src/sql/engine/compat.rs:17-64 | for every text: the statements of the bound text are the text's statements, each bound with its own consecutive slice of the parameters, for all parameters, exactly when one pass with four machines (splitter of the text, splitter of the bound text, binder of the text, binder of the pieces) never sees them part |
| SqlScan.PlainNamesCommute | src/sql/engine/compat.rs:17-64 | that is so when names in backticks hold no quote and no question mark, hence on all text without backticks |
| SqlScan.PartingShows | src/sql/engine/values.rs:744-781 | wherever they part there are parameters that show it |
| SqlScan.MarkAfterBackslashCommutes | src/sql/engine/values.rs:744-781 | a mark may even stand inside quotes to the splitter, right after a backslash |
| SqlScan.BackticksDivideTheMachines | src/sql/engine/values.rs:744-781 | and not for every text: a quote in a backticked name hides a parameter mark from the binder but not from the splitter |
| StorageFormat.StorageKeyPart | src/sql/engine/storage_format.rs:72-82 | the loop writes the percent encoding of the UTF-8 bytes |
| StorageFormat.PartReadsBack | src/sql/engine/storage_format.rs:72-82 | a reader of upper-case percent escapes gives the bytes back |
| StorageFormat.PlainPartStays | src/sql/engine/storage_format.rs:72-82 | letters, digits and `_-.` stand for themselves |
| StorageFormat.KeyPartInjective | src/sql/engine/storage_format.rs:72-82 | different names have different key parts |
| StorageFormat.RowKeyInjective | src/sql/engine/storage_format.rs:64-70 | different (table, row) pairs have different storage keys |
| StorageFormat.RowKeyIsNoPksKey | src/sql/engine/storage_format.rs:56-70 | no row key is the key of a list of row keys |
| StorageFormat.RowPatternIsOwn | src/sql/engine/storage_format.rs:60-62 | the row pattern of a table covers exactly the keys of its own rows, among the rows of all tables |
| StorageFormat.GlobMatches | src/vendor/lux/store/mod.rs:4319-4362 | on text without a star, the linear matcher that only ever goes back to the last star decides what the pattern means, for all patterns |
| StorageFormat.NextStar | src/vendor/lux/store/mod.rs:4341-4344 | meeting the next star it is enough to keep the earliest place reached |
| StorageFormat.PrefixPattern | src/sql/engine/storage_format.rs:60-62 | a plain prefix and a star match exactly the texts with that prefix |
| StorageFormat.DecodeEncoded | src/sql/engine/storage_format.rs:206-249 | a value of integers, text, booleans and null, or a document the JSON library reads back, decodes to itself |
| StorageFormat.RowRoundTrip | src/sql/engine/storage_format.rs:149-196 | a row of such values is read back as it was written |
| Utf8.EncodeInjective | src/sql/engine/storage_format.rs:72-74 | different texts have different UTF-8 bytes |
| Utf8.EncodeIsWellFormed | src/sql/engine/storage_format.rs:72-74 | the bytes of every text are well-formed UTF-8 |
| Storage.RedisStore.Write | src/storage/mod.rs:30-36 | one write changes the hash or set it names |
| Storage.RedisStore.WriteBatch | src/storage/mod.rs:27-39 | a batch is its writes one after the other |
| Storage.RedisStore.PersistRow | src/sql/engine/maintenance.rs:212-217 | the row reloads as written, every other row as before |
| Storage.RedisStore.DeleteRowFromStorage | src/sql/engine/maintenance.rs:279-282 | the row is gone, every other row reloads as before |
| Storage.RedisStore.DropWrites | src/sql/engine/maintenance.rs:225-235 | the deletions of a batch remove exactly the given rows of the table |
| Storage.RedisStore.SaveWrites | src/sql/engine/maintenance.rs:236-275 | the rest of a batch stores exactly the given rows |
| Storage.RedisStore.PersistRowBatch | src/sql/engine/maintenance.rs:219-277 | after one batch a table reloads as before, less the deleted rows, with the written rows on top; other tables are as before |
| Storage.RedisStore.DeleteTableRowsFromStorage | src/sql/engine/maintenance.rs:284-295 | after the sweep by pattern the table reloads to nothing and all other tables as before |
| Storage.KeysAreDistinct | src/sql/engine/storage_format.rs:56-82 | no two storage keys of rows or of row lists are the same |
| Storage.StorableRowsReload | src/sql/engine/maintenance.rs:54-77 | rows of storable values reload unchanged |
| Grouping.GroupedAdd | src/sql/engine/dml.rs:2232-2252 | adding one key to its group is grouping afresh with the key added |
| Grouping.GroupedRemove | src/sql/engine/dml.rs:2254-2276 | taking one key out, and its group when it becomes empty, is grouping afresh without it |
| UniqueKeys.UniqueKeyWithPrefixes | src/sql/engine/values.rs:179-202 | the loop yields the joined parts, with prefixes cut, or nothing as soon as a column is missing or null |
| UniqueKeys.KeyMissingIff | src/sql/engine/values.rs:179-202 | there is no key exactly when there are no columns or some column is missing or null |
| UniqueKeys.EqualKeysIff | src/sql/engine/values.rs:179-202 | for storable values: the values agree column by column, strings up to the prefix length, exactly when the keys are equal and each column holds as many separators in the one row as in the other |
| UniqueKeys.SeparatorFreeKeysIff | src/sql/engine/values.rs:179-202 | so for values without the separator U+001F keys are equal exactly when the values agree |
| UniqueKeys.SeparatorMovesValues | src/sql/engine/values.rs:194-201 | two different pairs of strings with U+001F always have one key |
| UniqueKeys.PrefixesAreOfFirstIndex | src/sql/engine/values.rs:179-202 | the prefix lengths are those of the first unique index on exactly these columns |
| UniqueKeys.FindConflictKeys | src/sql/engine/dml.rs:1927-1956 | the full scan finds the row under the same key and all rows with an equal unique key |
| UniqueKeys.BuildUniqueLookup | src/sql/engine/dml.rs:2216-2230 | the lookup groups the row keys by unique key |
| UniqueKeys.AddKeepsStanding | src/sql/engine/dml.rs:2232-2252 | after a row is added to table and lookup, the lookup is the one built afresh |
| UniqueKeys.RemoveKeepsStanding | src/sql/engine/dml.rs:2254-2276 | the same after a row is taken out |
| UniqueKeys.FindConflictKeysWithLookup | src/sql/engine/dml.rs:2278-2301 | with a lookup that stands for the rows, the fast search returns exactly what the full scan returns |
| UniqueKeys.PutKeepsUniqueIff | src/sql/engine/dml.rs:1927-1956 | a row can be put in place without breaking uniqueness exactly when no other row conflicts with it |
| UniqueKeys.ValidateUniqueConstraints | src/sql/engine/dml.rs:1874-1925 | the check passes exactly when no two rows share a non-null unique key or primary key |
| Indexes.AddRowToIndexes | src/sql/engine/dml.rs:1984-2003 | the row's key is filed once under each indexed column, however many indexes name the column |
| Indexes.RemoveRowFromIndexes | src/sql/engine/dml.rs:2005-2033 | the row's key is taken out under each indexed column |
| Indexes.RebuildIndex | src/sql/engine/dml.rs:2035-2059 | rebuilding yields the grouping of all rows by the text of each indexed column |
| Indexes.FiledUnderText | src/sql/engine/dml.rs:2035-2059 | a column is indexed exactly when some index has it alone, and under a text are filed exactly the rows that show this text in the column |
| Indexes.FilingKeepsIndex | src/sql/engine/dml.rs:1984-2003 | filing a new row in the index of the rows gives the index a rebuild would give |
| Indexes.UnfilingKeepsIndex | src/sql/engine/dml.rs:2005-2033 | the same for taking out a row, also one that is not there |
| Indexes.UnfileRows | src/sql/engine/dml.rs:789-793 | taking out the entries of deleted rows one by one gives the rebuilt index of the rest, if the rows are as they were when filed; keys no row has are passed over |
| Indexes.SameIndexIff | src/sql/engine/dml.rs:1984-2003 | two tables with the same row keys have the same index exactly when every row has the same text in every indexed column |
| Indexes.SameIndexSameKeys | src/sql/engine/dml.rs:2035-2059 | where some column is indexed, the index tells which rows there are |
| Indexes.RefileRows | src/sql/engine/dml.rs:794-799 | replacing the entries of changed rows one by one gives the rebuilt index of the new rows |
| ForeignKeys.ReferencesAre | src/sql/engine/dml.rs:1561-1578 | the keys gathered are those of all tables that name the parent, in whatever case |
| ForeignKeys.Actions | src/sql/engine/dml.rs:1537-1659 | the delete actions end on every graph of foreign keys, cycles and self-references included: either a row is newly visited or the set of keys shrinks |
| ForeignKeys.UnseenMeasure | src/sql/engine/dml.rs:1615-1622 | that measure goes down at every cascade |
| ForeignKeys.FrameActions | src/sql/engine/dml.rs:1537-1659 | on an acyclic graph the actions leave the parent's table alone, only remove rows and null columns elsewhere, and leave nothing that references the rows about to go |
| DeleteNulls.DeleteIsReasoned | src/sql/engine/dml.rs:1537-1659 | on any graph, also when it is stopped: a DELETE removes only rows of any closed set around the selected ones, nulls a column only together with all columns of a SET NULL key that leads to such a row, and is stopped only by a RESTRICT key it names, or an unknown action, that leads there |
| DeleteNulls.DeleteRemovesAndNulls | src/sql/engine/dml.rs:1537-1659 | on an acyclic graph with SET NULL keys on columns of their own: a DELETE that succeeds removes exactly the least closed set, and each row left with a SET NULL key on a removed row has all columns of that key null and the others as they were |
| DeleteNulls.DeleteIsThorough | src/sql/engine/dml.rs:1632-1648 | on every acyclic graph in which nulled columns are not referenced: no row is left that matches a row that is gone, and rows have only lost values to nulls |
| DeleteIntegrity.DeleteKeepsIntegrity | src/sql/engine/dml.rs:1537-1659 | on an acyclic graph in which no column nulled by SET NULL is referenced, every table state a DELETE stores keeps referential integrity, whether it succeeds or is stopped by a RESTRICT midway |
| DeleteIntegrity.ActionsKeepIntegrity | src/sql/engine/dml.rs:1537-1659 | the same for the recursion itself on such graphs, at every depth |
| DeleteIntegrity.RemovalKeepsIntegrity | src/sql/engine/dml.rs:1047-1058 | rows that nothing references can be removed |
| DeleteIntegrity.NullingKeepsIntegrity | src/sql/engine/dml.rs:1632-1648 | nulling the columns of a key keeps integrity when no other key references them |
| DeleteIntegrity.DeleteIgnoringKeepsIntegrity | src/sql/engine/dml.rs:1026-1058 | on such graphs DELETE IGNORE, row by row, keeps integrity in every stored state, although a row it passes over may already have lost children |
| IgnoredDeletes.IgnoredDeleteRemoves | src/sql/engine/dml.rs:1026-1068 | on every graph: of the table exactly the listed rows are gone whose actions nothing stopped at their turn, every other row of it is as it was, and the other tables are as the actions left them |
| IgnoredDeletes.ForbiddenRowsStay | src/sql/engine/dml.rs:1026-1068 | when the keys on the table only forbid: exactly the listed rows are gone that no other row refers to, and nothing else has changed |
| IgnoredDeletes.UnreferredRowsGo | src/sql/engine/dml.rs:1026-1068 | when no key refers to the table: all listed rows are gone, and nothing else has changed |
| IgnoredDeletes.IgnoredDeleteIsReasoned | src/sql/engine/dml.rs:1026-1068 | on every graph: only rows of any closed set around the listed ones are removed; and all listed rows go if only CASCADE and SET NULL keys lead there |
| IgnoredDeletes.IgnoredRowsAreUnreferred | src/sql/engine/dml.rs:1026-1068 | on an acyclic graph no row is left that refers to a row that is gone |
| DeleteClosure.ActionsAreSound | src/sql/engine/dml.rs:1561-1631 | on any graph without SET NULL the actions visit and remove nothing outside any closed set that contains the start, and nothing stops them if only CASCADE keys match rows of the set |
| DeleteClosure.ActionsSweep | src/sql/engine/dml.rs:1561-1631 | on any such graph, when the actions succeed, every row with a key on a visited row is visited itself |
| DeleteClosure.DeleteVisitsLeastClosedSet | src/sql/engine/dml.rs:1020-1068 | on any graph of CASCADE and RESTRICT keys, cycles and self-references included, a successful DELETE visits exactly the least set that contains the selected rows and is closed under CASCADE keys, and nothing outside it references it |
| DeleteClosure.DeleteSucceeds | src/sql/engine/dml.rs:1537-1659 | it succeeds, in whatever order keys are met, if only CASCADE keys match rows of a closed set around the selected rows |
| DeleteClosure.RestrictDependsOnOrder | src/sql/engine/dml.rs:1580-1653 | in between, whether a RESTRICT stops it depends on the order of the keys: a cascade met first may take the child away |
| DeleteCycles.ActionsSettle | src/sql/engine/dml.rs:1615-1631 | after a calm run all newly visited rows are gone; after any other one of them is there or will be written back; rows visited earlier stay as they are |
| DeleteCycles.DeleteRemovesThemIffCalm | src/sql/engine/dml.rs:1020-1068 | a successful DELETE removes only visited rows, and removes all of them exactly when it is calm: no table is taken up again with rows not visited before while rows of it are being dealt with |
| DeleteCycles.CalmDeleteKeepsIntegrity | src/sql/engine/dml.rs:1020-1068 | a calm DELETE keeps referential integrity on any such graph |
| DeleteCycles.CalmIffOwnChildrenSelected | src/sql/engine/dml.rs:1047-1063 | on graphs whose only cycles are keys of the deleted table on itself, it is calm exactly when the selected rows are closed under those keys |
| DeleteCycles.DeleteRemovesLeastClosedSet | src/sql/engine/dml.rs:1561-1631 | on an acyclic graph without SET NULL the rows removed are always the least closed set, and the others stay as they were |
| DeleteCycles.OrderDoesNotMatter | src/sql/engine/dml.rs:1561-1580 | in whatever order the schemas are visited, two successful runs visit the same rows, and two calm ones leave the same rows |
| DeleteCycles.OwnChildComesBack | src/sql/engine/dml.rs:1047-1063 | on any such graph an unselected child of a selected row of the same table is visited and yet left in memory |
| DeleteCycles.SecondOfTwoComesBack | src/sql/engine/dml.rs:1047-1063 | two rows, the second the child of the first: deleting the first leaves the second in memory, out of the index, although the least closed set has both |
| DeleteCycles.GrandchildComesBack | src/sql/engine/dml.rs:1615-1631 | further down the selection does not help: a child table with a key on itself keeps the grandchild |
| ParentUpdate.EveryKeySettles | src/sql/engine/dml.rs:1689-1774 | whatever other keys do, the columns of each key end as they were if no change hits the row, and else as the last change that hits it says |
| ParentUpdate.UpdateKeepsIntegrity | src/sql/engine/dml.rs:1661-1784 | CASCADE, SET NULL and RESTRICT keep referential integrity when parents swap or chain their referenced values, since all actions are computed against the children before; of the stored rows only the referenced columns need be what the schema shows |
| UpdateMeaning.ChildKept | src/sql/engine/dml.rs:1712-1726 | a child row stays as it is unless, for some key, its key columns are non-null and equal to the old referenced values of a parent row whose referenced values change |
| UpdateMeaning.ChildColumnKept | src/sql/engine/dml.rs:1712-1726 | a column of it stays unless that key contains the column |
| UpdateMeaning.ChildFollowsParent | src/sql/engine/dml.rs:1727-1756 | where keys share no columns: the last such parent change decides, CASCADE gives the key its new referenced values column by column, SET NULL nulls |
| UpdateMeaning.RefusedIff | src/sql/engine/dml.rs:1736-1747 | the UPDATE is refused exactly when such a row refers through a RESTRICT key or one with an unknown action |
| UpdateMeaning.ChildChangedByParent | src/sql/engine/dml.rs:1661-1784 | over the whole statement: a column of a row of another table changes only if the row referred, through a key with this column, to a matched row whose referenced values the UPDATE changes |
| UpdateMeaning.AcceptedIff | src/sql/engine/dml.rs:1481-1526 | a row passes the row check exactly when each key has a null column or refers to a parent row, where referenced columns are shown as stored |
| UpdateMeaning.DeleteMatchIff | src/sql/engine/dml.rs:2179-2200 | DELETE and UPDATE agree on which rows refer to a parent |
| ParentUpdate.AcceptedHasParent | src/sql/engine/dml.rs:1481-1526 | a row that passes the row check has a parent in the sense of the delete actions, if the schema shows the referenced columns of the parents as they are stored |
| UpdateSteps.NoneIsLost | src/sql/engine/dml.rs:658-785 | when no row moves to the key of a later row, an UPDATE that succeeds has every row under its new key with its new data, and nothing else |
| UpdateMeaning.UpdatedRowsAre | src/sql/engine/dml.rs:627-800 | when none overtakes: every matched row that passes the check is under the text of its new id with the data given, every other row is where and as it was, and there are no other rows |
| UpdateMeaning.OverwritingMove | src/sql/engine/dml.rs:627-800 | one matched row in overwrite mode: it is there with the data given, the rows it clashes with are gone, and all others are untouched |
| UpdateMeaning.WhyItStops | src/sql/engine/dml.rs:658-785 | the loop stops only for a rejected assignment, a missing parent without IGNORE, or a taken key in the enforcing modes; if it does not stop, none of the first two occurred |
| UpdateSteps.RowCountKeptIff | src/sql/engine/dml.rs:760-784 | with keys enforced, an UPDATE that succeeds keeps the number of rows exactly when no row moves to the key of a later row; otherwise rows are lost without an error |
| UpdateSteps.FailsIffKeysMeet | src/sql/engine/dml.rs:776-778 | when no row moves onto a later one and all rows are acceptable, the loop fails exactly if two rows are to have the same key |
| UpdateSteps.CompositeKeysMeet | src/sql/engine/dml.rs:1848-1872 | on a composite primary key the new id is the value of the first column alone, never the id INSERT gives such a row, and two updated rows that agree there meet |
| UpdateSteps.UpdateKeepsIdIff | src/sql/engine/dml.rs:1786-1872 | an UPDATE that leaves the data of a row as INSERT stored them keeps its id exactly when the primary key has at most one column, or its first column is missing or was given the whole id |
| UpdateSteps.FreshKeysOvertakeNone | src/sql/engine/dml.rs:658-785 | rows that keep their keys or take keys no row has never move onto a later one |
| UpdateSteps.WalkTracks | src/sql/engine/dml.rs:658-785 | in either mode and whatever moves where: the new rows are the old ones less the delete set with the persist set on top, except for the hidden rows, which stayed where another had just moved |
| UpdateSteps.HiddenIsClobbered | src/sql/engine/dml.rs:760-784 | only rows another one moves onto before they are visited are hidden, and with keys enforced all of them |
| UpdateSteps.ClobberedIsChanged | src/sql/engine/dml.rs:760-784 | a row moved onto one that stays is gone from memory but still due to be stored there |
| UpdateSteps.SecondRowSwallowsFirst | src/sql/engine/dml.rs:658-785 | the smallest case: of two rows, the first moved onto the second, memory keeps the second and the store would get the first |
| UpdateSteps.ChangesAreRecorded | src/sql/engine/dml.rs:756-758 | the recorded parent changes are exactly those of the rows whose data changed |
| UpdateSteps.UpdateStatementKeepsIntegrity | src/sql/engine/dml.rs:627-800 | an UPDATE with keys enforced in which no row moves onto a later one keeps referential integrity, on schemas whose keys do not overlap or chain |
| Inserting.InsertRowsKeepUnique | src/sql/engine/dml.rs:345-463 | INSERT in plain, IGNORE, REPLACE and overwrite mode keeps unique keys unique |
| Inserting.OnDuplicateKeepsUniqueIff | src/sql/engine/dml.rs:360-417 | ON DUPLICATE KEY UPDATE, which does not check again, keeps them unique exactly when the merged row conflicts with no other row |
| Inserting.UndottedConflicts | src/sql/engine/dml.rs:445-446 | dropping qualified columns before storing adds no conflict |
| Placing.PlacedRow | src/sql/engine/dml.rs:345-463 | in every mode, a row neither passed over nor merged is there afterwards under the text of its identity, with that identity and its data less qualified columns; gone are exactly the rows with the same key or an equal unique key, all others are untouched, and the count is one plus, for REPLACE, the rows replaced; it is refused exactly when it clashes and clashes are not allowed, and then nothing changes |
| Placing.PassedOverRow | src/sql/engine/dml.rs:354-359 | a row that clashes under IGNORE changes nothing |
| Placing.MergedRow | src/sql/engine/dml.rs:360-417 | a row that clashes under ON DUPLICATE KEY UPDATE changes the data of one row it clashes with, keeping its identity, and counts two if the data changed and none if not |
| Placing.AcceptedRow | src/sql/engine/dml.rs:274-463 | a row with parents is given an identity, written into its column, and placed with it; no other column of it changes |
| Placing.RefusedRow | src/sql/engine/dml.rs:274-300 | a rejected row, or one without a parent, changes nothing; only the latter is passed over by IGNORE |
| Placing.PlainInsertAddsAll | src/sql/engine/dml.rs:243-467 | a plain INSERT that succeeds adds one row for each that comes in, with its data, leaves all others, and counts them |
| Placing.IdentityOfRow | src/sql/engine/dml.rs:1786-1846 | which identity a row is given: the composite key, the value of its column, a generated id, or the random one |
| Placing.ZeroGeneratesIff | src/sql/engine/dml.rs:1786-1846 | an explicit zero generates an id exactly when NO_AUTO_VALUE_ON_ZERO is off |
| Placing.NextIsOneMore | src/sql/engine/dml.rs:1958-1963 | a generated id is one more than the counter, from zero when there was none, wrapping at the largest 64-bit integer, and the counter becomes the id |
| Placing.IdentityIsStored | src/sql/engine/dml.rs:325-344 | the identity is stored in its column |
| Placing.NextAfterExplicit | src/sql/engine/dml.rs:309-324 | the id generated after an explicit one is one more than the greater of it and the counter |
| AutoIncrement.RunKeepsBounded | src/sql/engine/dml.rs:301-324 | over every run of INSERT in all modes, DELETE, UPDATE and TRUNCATE on all tables, all live and all issued ids stay at or below the counter, as long as it does not wrap, no UPDATE gives a larger id and no TRUNCATE of another table takes the counter away |
| AutoIncrement.GeneratedIdIsFresh | src/sql/engine/dml.rs:1786-1846 | after any such run a generated id is larger than every live integer id and was not issued since the last TRUNCATE of the table |
| AutoIncrement.FreshIffRoom | src/sql/engine/dml.rs:1958-1963 | on a table with a live id the next one is larger than every live id exactly when the counter is below the 64-bit maximum |
| AutoIncrement.UpdateKeepsFreshIff | src/sql/engine/dml.rs:743-785 | an UPDATE leaves the next id fresh exactly when every new integer id is at most the counter |
| AutoIncrement.UpdatedIdIsOvertaken | src/sql/engine/dml.rs:743-785 | a run that fails: the id 1 is updated to 5, and the next id is 2 |
| AutoIncrement.TruncateKeepsFreshIff | src/sql/engine/ddl.rs:611-621 | TRUNCATE of another table leaves the next id fresh exactly when the name of that table and a colon do not begin the name of the counter, or nothing stands against the id 1 |
| AutoIncrement.TruncatedPrefixRepeatsId | src/sql/engine/ddl.rs:611-621 | a run that fails: TRUNCATE of `a` makes `a:b` generate the id 1 again |
| AutoIncrement.MergedColumnIsIdIff | src/sql/engine/dml.rs:360-417 | ON DUPLICATE KEY UPDATE keeps the id of the row; its column still shows the id exactly when the merge keeps the column |
| Runs.RunKeepsUnique | src/sql/engine/dml.rs:345-463 | over every run of INSERT, DELETE, UPDATE with keys enforced and TRUNCATE, including statements that fail, no two rows of a table share a non-null unique key, if rows are not merged and no key cascades on UPDATE |
| Runs.DeleteWears | src/sql/engine/dml.rs:1537-1659 | on any graph of foreign keys a DELETE only removes rows and nulls columns of SET NULL keys |
| Runs.StepKeepsUnique | src/sql/engine/dml.rs:345-463 | each single statement keeps unique keys unique in all tables |
| Runs.ChildrenShrink | src/sql/engine/dml.rs:1661-1784 | without CASCADE the actions of an UPDATE only null columns of children |
| RunIntegrity.RunKeepsIntegrity | src/sql/engine/dml.rs:1481-1784 | over every run of plain INSERT, DELETE, UPDATE that moves no row onto a later one, and TRUNCATE of unreferenced tables, every row whose foreign-key columns are all non-null has a parent; rows may leave columns out, and that referenced columns are stored as they are shown is itself kept by every statement |
| RunIntegrity.StepKeepsIntegrity | src/sql/engine/dml.rs:1481-1784 | each single statement keeps both |
| RunIntegrity.InsertRowKeepsIntegrityIff | src/sql/engine/dml.rs:289-324 | a row added by INSERT keeps integrity exactly when each key with the identity column whose columns are all non-null once the identity is written finds a parent, which may be the row itself |
| RunIntegrity.InsertRowsKeepIntegrity | src/sql/engine/dml.rs:243-467 | so does a whole INSERT of such rows, up to the row that fails |
| RunIntegrity.ApartFindsAll | src/sql/engine/dml.rs:289-324 | every row does when the column that takes the identity is in no foreign key of the table |
| RunIntegrity.GeneratedIdIsOrphan | src/sql/engine/dml.rs:289-324 | an INSERT that fails to: its generated id refers to a parent that is not there |
| RunIntegrity.UpdateKeepsShown | src/sql/engine/dml.rs:627-800 | an UPDATE keeps referenced columns stored as they are shown |
| FailedInserts.FirstRowStaysInMemory | src/sql/engine/dml.rs:274-300 | an INSERT whose second row is rejected leaves the first in memory, which the store has not |
| FailedInserts.MergedRowIsFiledUnderOldValue | src/sql/engine/dml.rs:360-417 | a merge that fails after assigning an indexed column leaves the row filed under the old value |
| Engine.Engine.constructor | src/sql/engine/mod.rs:635-660 | an engine without rows: indexes and store agree with it |
| Engine.Engine.ValidateForeignKeyRow | src/sql/engine/dml.rs:1481-1526 | the row passes exactly when each key of its table has a null column or a row in view that matches |
| Engine.Engine.NextAutoIncrement | src/sql/engine/dml.rs:1958-1963 | the counter goes up by one, from zero when there was none |
| Engine.Engine.RaiseCounter | src/sql/engine/dml.rs:309-324 | an explicit integer id raises the counter at least to itself; no counter is ever lowered or taken away |
| Engine.Engine.RemoveConflicts | src/sql/engine/dml.rs:420-437 | the conflicting rows leave the table, lookup, indexes and batch together |
| Engine.Engine.MergeInto | src/sql/engine/dml.rs:360-417 | the first conflicting row takes the merged data; lookup, indexes and batch follow; if an assignment fails midway the indexes match exactly when the half-merged row is filed as before |
| Engine.Engine.PlaceRow | src/sql/engine/dml.rs:345-463 | placing one row with the lookup is placing it with the full scan, in all five modes |
| Engine.Engine.InsertOne | src/sql/engine/dml.rs:274-463 | one iteration of the insert loop is the simple form; afterwards the lookup is the one built from the rows, the indexes are rebuilt ones and the batch tracks the table |
| Engine.Engine.InsertLoop | src/sql/engine/dml.rs:243-463 | the loop keeps all of this at every iteration, up to the first row that fails |
| Engine.Engine.InsertPreparedRows | src/sql/engine/dml.rs:243-467 | INSERT yields the rows of the simple form; after success indexes are those of a rebuild and the store reloads to the rows; after failure nothing has been stored, the store matches exactly when the rows left reload like those before, and the indexes exactly when the rows are filed as before the row that failed; unique keys stay unique without merging |
| Engine.Engine.ApplyParentDeleteActions | src/sql/engine/dml.rs:1537-1659 | the recursive method is the recursive specification on every graph, ends, and keeps the indexes; on an acyclic graph the store stays level with the rows; without SET NULL the store loses exactly the newly visited rows |
| Engine.Engine.CascadeTo | src/sql/engine/dml.rs:1615-1631 | children first, then the rows themselves, in memory, store and index |
| Engine.Engine.DeleteSelected | src/sql/engine/dml.rs:1020-1068 | on every graph DELETE leaves the rows of the specification; on an acyclic one everything kept beside the rows agrees with them and every stored state keeps integrity; on any graph of CASCADE and RESTRICT keys a DELETE that succeeds takes exactly the least closed set out of the store, and rows, store and indexes agree exactly when it is calm |
| Engine.Engine.DeletePassingOver | src/sql/engine/dml.rs:1026-1068 | on every graph the table loses exactly the listed rows whose actions nothing stopped at their turn, keeps all others as they were, and the store has none of the rows that are gone; the other rows and the stored states are those of the specification; on an acyclic graph indexes and store agree and every stored state keeps integrity |
| Engine.Engine.RemoveRows | src/sql/engine/dml.rs:1047-1063 | the table is written back as it was less the rows; the index matches if the actions have left the other rows alone, and, where a column is indexed, only then |
| Engine.Engine.GatherActions | src/sql/engine/dml.rs:1669-1756 | the child actions are gathered without writing; the gathering fails exactly when a RESTRICT or unknown action is hit |
| Engine.Engine.GroupActions | src/sql/engine/dml.rs:1758-1775 | grouped by table, the actions give the changed children |
| Engine.Engine.ApplyParentUpdateActions | src/sql/engine/dml.rs:1661-1784 | the children become those of the specification, or nothing at all is written; indexes and store follow |
| Engine.Engine.WalkRows | src/sql/engine/dml.rs:658-785 | the loop over the rows computes the new rows, the delete set, the persist set and the parent changes of the specification |
| Engine.Engine.UpdateRows | src/sql/engine/dml.rs:627-803 | an UPDATE that fails changes nothing; one that succeeds leaves the rows of the specification, in either mode, with the indexes matching exactly when the hidden rows are filed like the rows the batch has in their place, and the store exactly when they are read back the same; all agree if no row moves to the key of a later one |
| Engine.Engine.ReplaceRows | src/sql/engine/dml.rs:787-799 | the incremental index update after an UPDATE gives the index of the rows the batch accounts for |
| Engine.BatchLevelsIff | src/sql/engine/dml.rs:800-802 | the batch of an UPDATE brings the store level exactly when the hidden rows are stored like the rows in their place |
| Engine.BatchFilesIff | src/sql/engine/dml.rs:787-799 | the same for the index |
| Engine.BlockedBySome | src/sql/engine/dml.rs:1736-1747 | an UPDATE is forbidden exactly when some RESTRICT or unknown key refers to old values |
| Engine.Engine.TruncateTable | src/sql/engine/ddl.rs:611-621 | rows, indexes, counters and stored rows of a table go together |
| Engine.Engine.TruncateTables | src/sql/engine/ddl.rs:600-625 | all tables named are truncated; in strict mode an unknown one ends the statement, and those before it stay truncated |

## Left out

- StorageFormat.DecodeEncoded: covers null, booleans, 64-bit integers, strings, and documents the JSON library reads back; the text form of floats is that library's.
- StorageFormat.RowRoundTrip: rows carry no timestamps and no version; these fields are written and read next to the modelled ones and nothing here depends on them.
- StorageFormat.GlobMatches: says nothing of text that holds a star, which the matcher takes for the star of the pattern.
- Storage.RedisStore.DeleteTableRowsFromStorage: the store holds only keys this program writes, none of which contains a star.
- JsonMatch.Collect: yields the steps of each path, of which the program keeps the printed text; members of an object are visited in no particular order.
- DeleteIntegrity.DeleteKeepsIntegrity: for acyclic graphs in which columns nulled by SET NULL are not referenced themselves; for graphs with cycles the state after a successful DELETE is `DeleteCycles.CalmDeleteKeepsIntegrity`, the states stored on the way are not covered.
- DeleteCycles.DeleteRemovesThemIffCalm: for CASCADE and RESTRICT keys; with SET NULL a row may lose its key before a cascade reaches it, so what is visited depends on the order. On acyclic graphs SET NULL is covered by `DeleteNulls`.
- DeleteNulls.DeleteRemovesAndNulls: columns of a SET NULL key belong to no other key; without that `DeleteNulls.DeleteIsThorough` and `DeleteNulls.DeleteIsReasoned` hold.
- IgnoredDeletes.IgnoredDeleteRemoves: a row passed over keeps what its actions did before they were stopped, as in the program; on graphs with cycles nothing is claimed of the store beyond the rows that are gone.
- UpdateMeaning.UpdatedRowsAre: with keys enforced and no row moved onto a later one; rows lost otherwise are `UpdateSteps.RowCountKeptIff` and `UpdateSteps.HiddenIsClobbered`.
- Placing.MergedRow: which of several clashing rows is merged is the first of the ordered set, taken as given.
- PathSpelling.PathIsSpelled: indexes are read by the library's number parser, modelled with its sign, zeros and limit.
- DeleteClosure.DeleteSucceeds: when RESTRICT keys match rows of the closed set only from inside it, success depends on the order in which keys are met.
- ParentUpdate.UpdateKeepsIntegrity: for acyclic graphs with well-formed keys on disjoint columns, child columns that no third table references, keys that name the table in its own spelling, and referenced columns stored as the schema shows them.
- UpdateSteps.UpdateStatementKeepsIntegrity: with the same conditions on the schemas, and no row moved onto a later one.
- Runs.RunKeepsUnique: without ON DUPLICATE KEY UPDATE, with keys enforced for UPDATE, and without ON UPDATE CASCADE, which can copy one value into several children.
- RunIntegrity.RunKeepsIntegrity: without REPLACE, overwrite mode and ON DUPLICATE KEY UPDATE, which run no parent actions; the schema's view of a referenced column is taken to depend on that column alone, and the rows that come in to be shown as they are.
- Engine.Engine.DeleteSelected: on graphs with cycles nothing is claimed of the store after a DELETE that a RESTRICT stops midway, nor with SET NULL keys.
- Engine.Engine.InsertPreparedRows: rows come in prepared (defaults, generated columns and coercion done, or rejected), and the assignments of ON DUPLICATE KEY UPDATE are a function of the two rows.
- Engine.Engine.UpdateRows: the rows matched and the data their assignments give are inputs.
- AutoIncrement.GeneratedIdIsFresh: for a table whose auto-increment column is its primary key, and while the counters a statement uses are below their maximum; overflow wraps, as in a release build.
- A table has at most one auto-increment column.
- SQL parsing, expression evaluation, type coercion, generated columns, joins and RETURNING.
- Locking and concurrency of the shared maps: statements are sequential.
- Last-insert ids, metrics, warnings and error texts.
- Multi-table DELETE, the two compatibility shims for DELETE IGNORE and UPDATE, seeding and dumps.
- Storing of schemas and counters: composite primary keys are stored as a set, so a schema need not reload as it was.
- The order of object members in JSON text, and JSON numbers that are not integers.
- Cropping and ranking in the search endpoint, HTTP routes, the MySQL packet format and session variables.

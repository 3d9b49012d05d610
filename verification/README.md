# quack-rs in Dafny

A model of the algorithms and protocols of quack-rs, the Rust SDK for DuckDB
extensions, and proofs of what they promise. `dafny verify dfyconfig.toml`
checks all of it.

quack-rs calls DuckDB through a table of function pointers whose layout changes
between releases, buffers rows in front of an appender that buffers rows
itself, and runs a load protocol in which every step can fail. The model covers
the parts of it that decide something, one module a component:

- `Versions`, `AbiTable`, `ReleaseCheck`, `AbiGuard`: the layout guard, from the
  release headers the maintenance script reads, through the compressed range
  table and the prefix pairs, to the run-time decision and the load policy.
- `HeaderBands`, `HeaderRegex`, `HeaderTwin`, `HeaderScript`, `HeaderTree`, `ApiShim`: the
  script's reader of a C header with conditional bands, against what the
  preprocessor means by them, the build script's independent reader of the same
  struct, and the C shim generated from it. Headers and shim are modelled down to
  their characters.
- `Pipeline`: the two together, from header text to a call through a slot
  (`Pipeline.HeadersToDispatch`).
- `Appender`: the row-tracking wrapper as a class, run against DuckDB's own
  buffering appender, with every automatic flush, failure and nested closure.
- `ExceptionJson`, `ExceptionJsonGrammar`: the hand-written exception-JSON
  parser and the grammar it decides.
- `FileHandle`: reads and writes over a file system that serves any part of a
  request. `ChunkWriter`: the scan loop over a reused output chunk.
- `CfgPredicate`: the text analysis that says which `cfg` predicates are
  test-only, against the meaning of the predicates.
- `LoadProtocol`, `ExtraInfo`: one `LOAD` from arguments to disconnect, and the
  ownership of a function's payload.
- `Interval`, `SqlMacro`: interval totals and their order, and the text of a
  macro definition.
- `Text`, `Wrappers`: strings and results.

Code that changes state is written as methods and classes proved against
functions of the old state; the theorems are about those functions. What DuckDB,
the file system, a closure or the preprocessor decides is a parameter, and the
theorems cover every value of it. Every lemma switches Dafny's automatic induction
off and writes its induction out.

## What came out

- **The range table is exact for rows in any order**, not only for the sorted
  rows the script builds: first-match lookup in the compressed table is
  first-match lookup in the rows (`AbiTable.CollapsedIsExact`). Only
  disjointness needs the sorting.
- **`decide` on its own is not safe for malformed declarations**: it takes two
  strings that are both no version for the same version
  (`AbiGuard.MalformedDeclarationMatchesAnyDevBuild`, an exact condition). The
  filter `parse_declared_version` in front of it is what makes
  `AbiGuard.CheckOnUnknownEngine` true.
- **A failed download can end in exit code 0.** The script's documentation says
  that a header that could not be fetched gives exit code 2; if any header could
  be, the code returns 2 only if a table differs as well. Where the tables of `src/abi.rs` lack exactly
  the releases that were lost, nothing differs, and a stale table is reported as
  matching (`ReleaseCheck.StaleTablePasses`, `ReleaseCheck.OneLostRelease`). Exit
  code 0 is right if and only if no published header was lost, and exit code 1
  is always right (`ReleaseCheck.FailedFetches`).
- **The count of rows at risk can be too low.** `buffered` misses the rows of a
  chunk whose automatic flush fails on an engine that keeps them (DuckDB 1.x):
  DuckDB then holds rows that the wrapper does not count, and the count is too low
  unless it was too high by as much before. That is exact, for one call
  (`Appender.UndercountIsAStrandedChunk`) and for whole runs
  (`Appender.CountIsExact`); the smallest run is
  `Appender.StrandedChunkExample`. No row reported as appended is lost by it:
  `Appender.NoSilentLoss` holds for every run, this one included.
- **`requires_test` reads a comma in a string literal as a separator**: `all` of
  a single flag whose value holds `,test,` is called test-only and is not
  (`CfgPredicate.LiteralCommaMisleads`; exactly when, `CfgPredicate.AllOfOneFlag`).
  Text with literals in it reaches the analysis only in the search for `mod x;`
  declarations; the cut of test-only items works on text without them. For flags
  whose commas stand inside balanced parentheses the analysis is sound, and
  complete without `not` and without an empty `any`
  (`CfgPredicate.RequiresTestDecides`).
- **Retrying a failed load works if and only if no configuration option that it
  registers was left** (`LoadProtocol.RetryWorksExactly`), and registering
  options last is not enough to ensure that: they stay when the commit is what
  fails (`LoadProtocol.FailedCommitBlocksRetry`).
- **A comment after a semicolon makes the script lose a slot.** It takes a
  declaration to end where a line ends in `;`, comments included, and keeps one
  name of what it has gathered by then; a preprocessor would drop the comment
  first. No check of the script notices, since names and declarations lose the
  slot together, so it can end with code 0 and vouch for a slot count that is
  one short (`HeaderScript.TrailingCommentExample`,
  `Pipeline.LostSlotIsVouchedFor`). It is right about a header if and only if
  each declaration is ended in time (`HeaderTree.ScriptIsPreprocessor`).
- **The two header readers differ in more than one way.** The build script finds
  a pointer by `(*` and misses one with a blank between the two characters
  (`HeaderScript.LooseMarkExample`); it refuses alternatives, which the script
  reads through; and where a closing mark stands before the opening one they cut
  different text out of the header (`HeaderTwin.BodiesAgree`, exact). On headers
  of declarations, bands without alternatives and comments, when they agree is
  exact as well (`HeaderScript.ReadersAgree`).
- **The interval documentation's "fields share a sign" is sufficient, not
  necessary.** What decides is whether the fields share a sign once carried
  (`Interval.TotalsOrderExactly`).
- **The exception parser accepts a little more than JSON**: raw control
  characters in strings, form feed between tokens, and Unicode white space
  around the object; nothing else (`ExceptionJsonGrammar.ParserIsGrammar`).

## Model

| member | source | states |
|---|---|---|
| Versions.ParseVersionIsGrammar | src/abi.rs:428-446 | `parse_version` returns a triple exactly for an optional `v` and three dotted decimals below 2^64 with those values; empty parts, signs, extra parts and overflow are refused |
| Versions.ParseVersionBySplit | src/abi.rs:428-446 | pulling parts one at a time from a lazy iterator and stopping early computes what splitting eagerly would |
| Versions.AcceptanceAgrees | build.rs:405-418 | the build script's acceptance test and the run-time parser accept the same strings |
| Versions.PrintThenParse | fuzz/fuzz_targets/abi_version.rs:9-23 | any triple of `u64`s, printed with or without `v`, parses to itself; a larger component is refused |
| AbiTable.Collapse | scripts/check-abi-table.py:222-231 | the loop computes the recursive specification `Collapsed` |
| AbiTable.CollapsedIsExact | scripts/check-abi-table.py:222-231 | for rows in any order, first-match lookup in the ranges is first-match lookup in the rows, so no unlisted patch release is vouched for |
| AbiTable.CollapsedOfSorted | src/abi.rs:464-470 | for sorted rows, a version is found with `s` slots if and only if it is a row with `s` slots, and the ranges are ordered |
| AbiTable.OrderedCollapse | scripts/check-abi-table.py:222-231 | for sorted rows every range ends before every later one begins |
| AbiTable.TableIsCanonical | scripts/check-abi-table.py:222-231 | for sorted rows the derived table is the only one that is in order, in which no range could be joined with the next, and that answers for each release as the rows do |
| AbiTable.CollapsedIsCompressed | scripts/check-abi-table.py:222-231 | for rows in any order, no two neighbouring ranges could be joined |
| AbiTable.DerivedPairs | scripts/check-abi-table.py:265-273 | a pair is derived exactly when both slot counts have a layout, the first is smaller, and its layout is a prefix of the second's |
| AbiTable.PrefixesAreCanonical | scripts/check-abi-table.py:265-273 | the derived list is the only one that ascends and holds exactly the proper prefixes among the layouts |
| ReleaseCheck.ReadHeader | scripts/check-abi-table.py:165-184 | each declaration of a header is the clean-up of one entry, and each name that entry's, slot by slot; the stable names are those of a target at v1.2.0 without the unstable surface |
| ReleaseCheck.NamesAgreeIsNormalise | scripts/check-abi-table.py:332-335 | comparing names with declarations tells exactly whether the clean-up keeps each entry's name: it says nothing about entries the scanner lost |
| ReleaseCheck.CheckHeader | scripts/check-abi-table.py:326-350 | no problem is added exactly when names and declarations agree, the stable names are a prefix, and the layout is the one recorded for its slot count |
| ReleaseCheck.CleanIsSound | scripts/check-abi-table.py:326-350 | checking each header as it arrives against what is recorded so far is the same as checking all of them against the final record |
| ReleaseCheck.RecordedIsIdentified | scripts/check-abi-table.py:345-350 | comparing each header only with the first of its slot count is enough: it holds if and only if any two releases with one slot count have one layout |
| ReleaseCheck.CheckStable | scripts/check-abi-table.py:387-405 | no problem remains exactly when the per-header checks passed and the first slots, as many as the constant says, are declared stable and alike in every release |
| ReleaseCheck.CheckTables | scripts/check-abi-table.py:291-440 | the whole script ends as the verdict says: could not check, drifted, matches, or with an exception where a header lacks the struct or a declaration names no pointer |
| ReleaseCheck.StableSlotsAreFrozen | src/abi.rs:150-169 | after a passing run, each slot below the stable count holds in any two releases the same declaration where `varint` occurs in neither, and otherwise one that differs by that rename; and the name a stable-only extension sees there is the one in the full struct |
| ReleaseCheck.StableCountIsLeast | scripts/check-abi-table.py:378-388 | a run passes only for the least count of slots that any release declares stable, not for a smaller one |
| ReleaseCheck.RenameKeeps | scripts/check-abi-table.py:340-343 | a declaration without the old name is compared whole |
| ReleaseCheck.RenameReplaces | scripts/check-abi-table.py:340-343 | at its first occurrence the old name is replaced, with the text before it kept and the text after it renamed |
| ReleaseCheck.RenameOfPieces | scripts/check-abi-table.py:340-343 | so renaming keeps the pieces between the occurrences and replaces each joint |
| ReleaseCheck.RowsAreSorted | scripts/check-abi-table.py:306-324 | whatever tags are listed, in whatever order and however often: the releases ascend strictly if and only if no two tags have one key, and then, whatever the downloads give, the rows gathered are strictly sorted |
| ReleaseCheck.FailedFetches | scripts/check-abi-table.py:26-38 | for any downloads failed: exit code 0 is right about the complete list if and only if no published header was lost, exit code 1 is always right, and if the complete list passes a lost header gives 2 |
| ReleaseCheck.ExitCodes | scripts/check-abi-table.py:356-440 | an exception comes exactly with a malformed header or a nameless declaration, code 2 only with a failed download, and with one exactly if nothing was read or the tables differ |
| ReleaseCheck.NothingRead | scripts/check-abi-table.py:356-363 | with no header read the code is 2 if a download failed and 1 if none is published, whatever the tables say |
| ReleaseCheck.StaleTablePasses | scripts/check-abi-table.py:407-420 | a table that lacks exactly the lost releases passes, although the complete list does not: the documented exit code 2 does not come |
| ReleaseCheck.OneLostRelease | scripts/check-abi-table.py:407-420 | the smallest such list: one release read, the next one lost |
| ReleaseCheck.LostRowShows | scripts/check-abi-table.py:407-420 | losing a published release always changes the derived ranges |
| AbiGuard.ScriptVouches | scripts/check-abi-table.py:291-440 | exit code 0 establishes everything the run-time lookup rests on |
| AbiGuard.TablesAreCanonical | scripts/check-abi-table.py:368-420 | what the comparison of tables comes to, from the headers: the ranges are in order and compressed and answer for exactly the releases read, and the pairs ascend and are the slot counts of two releases of which one is a proper prefix of the other |
| AbiGuard.LookupIsPrefix | src/abi.rs:198-218 | one lookup in the pair table holds for two listed releases exactly when every slot of the first is the same declaration in the second |
| AbiGuard.LookupIsAPartialOrder | src/abi.rs:198-218 | the lookup is reflexive, transitive without chaining, and antisymmetric, for all slot counts |
| AbiGuard.UnknownCountRunsNowhere | src/abi.rs:213-218 | a slot count that runs on a listed release is that of a listed release |
| AbiGuard.DecideOnKnownEngine | src/abi.rs:565-611 | on a listed engine "compatible" holds if and only if the declaration does not contradict the bindings and a listed layout of the compiled size dispatches alike there |
| AbiGuard.DispatchIsSound | src/abi.rs:526-611 | end to end: "compatible" on a listed engine means each slot index below the compiled count is the same declaration on both sides, whatever was declared |
| Pipeline.HeadersToDispatch | src/abi.rs:526-611 | from the text of the headers to the call: if the script ends with code 0 on whatever tags and downloads, and the check passes on a listed engine, each slot compiled in is the same declaration under the same name in the two headers |
| Pipeline.DownloadsDecide | scripts/check-abi-table.py:79-103 | how the downloads decide the exit code: a header that is nowhere published is skipped, one without the struct's marks is an exception, code 2 takes one that could not be reached, and with none published at all the code is 2 if one could not be reached and 1 if not |
| Pipeline.FieldsAreLaidOut | scripts/check-abi-table.py:121-184 | and the fields read are the ones a compiler lays out if and only if each declaration left by the preprocessor is ended in time |
| Pipeline.LostSlotIsVouchedFor | scripts/check-abi-table.py:326-440 | where one is not, nothing notices: a struct of two slots with a comment after the first semicolon is counted as one, and the script ends with code 0 |
| AbiGuard.CheckOnUnknownEngine | src/abi.rs:519-611 | on any other engine the check passes exactly when a well-formed declaration names that very release |
| AbiGuard.MalformedDeclarationMatchesAnyDevBuild | src/abi.rs:565-589 | `decide` without the declaration filter is compatible with an engine that has no version exactly when the declaration has none either |
| AbiGuard.CheckedLoadIsSound | src/entry_point.rs:1059-1081 | under the two checking policies a build that reaches into the unstable region is loaded by a listed engine only if it dispatches alike |
| AbiGuard.MisdeclaredBuild | src/entry_point.rs:1059-1081 | a declaration that names a listed release with another slot count comes first, on any engine or none: reported with both counts, refused by Strict and AllowUnknownEngine, warned of by Warn |
| AbiGuard.EngineWithoutVersion | src/entry_point.rs:1059-1081 | otherwise an engine that reports no version is refused by Strict and AllowUnknownEngine alike |
| AbiGuard.EngineNamedByBuild | src/entry_point.rs:1059-1081 | the build made for this very engine loads under every policy |
| AbiGuard.EngineOffTheList | src/entry_point.rs:1059-1081 | on an engine that is not listed and that the build does not name Strict refuses, AllowUnknownEngine and Trust load, and Warn loads with a warning |
| AbiGuard.EngineOnTheList | src/entry_point.rs:1059-1081 | on a listed engine every policy loads a layout that dispatches alike; any other is a mismatch, reported with both counts, which Strict and AllowUnknownEngine refuse |
| AbiGuard.PoliciesAreOrdered | src/abi.rs:632-683 | each policy admits what the stricter one admits; AllowUnknownEngine admits more than Strict exactly on an unknown release; only Warn warns, exactly where Strict refuses |
| AbiGuard.LoadsExactly | src/entry_point.rs:1059-1081 | for every policy, declaration and engine: exactly which builds load without a word, from the headers alone |
| AbiGuard.StableBuildIsPortable | src/abi.rs:548-557 | a default build is never refused, and the slots it relies on are, in any two releases, equal where `varint` occurs in neither and otherwise alike but for that rename |
| HeaderBands.StructEntries | scripts/check-abi-table.py:121-162 | the loop with its stack, continuation flag and text buffer computes the fold over lines that the theorems are about |
| HeaderBands.HarmlessIsSilent | scripts/check-abi-table.py:156-161 | comments and return types, with any parentheses but a pointer's, are text that no search ever sees |
| HeaderBands.BandsAreFilters | scripts/check-abi-table.py:121-162 | for every target, if the text pending at each directive is silent, which is to say that no declaration straddles it, the fields kept are those whose surrounding conditions all hold, in order |
| HeaderBands.BandsAreMonotone | scripts/check-abi-table.py:121-162 | a later target, or the unstable surface, keeps an ordered supersequence of the fields |
| HeaderBands.NamesCount | scripts/check-abi-table.py:175-184 | every entry kept has exactly one name |
| HeaderRegex.MatchFnPtrIsRegex | scripts/check-abi-table.py:76 | a name is matched exactly where a parenthesis, a star, a word beginning `duckdb_` and a closing parenthesis follow each other, blanks between them aside |
| HeaderRegex.SearchIsLeftmost | scripts/check-abi-table.py:159-160 | a search finds the leftmost match, or nothing only where there is none |
| HeaderRegex.MatchAtLeastIsRegex | scripts/check-abi-table.py:118 | a line is read as a version test exactly if the whole line is one, with blanks where the expression allows them |
| HeaderTree.ScriptIsPreprocessor | scripts/check-abi-table.py:121-184 | for every nesting of bands and every target, with the version test as the header defines it, the script reads exactly the pointers that the preprocessor leaves if and only if each declaration left is ended, by a `;` at the end of its last line or of a comment line after it, before the next one and before the struct ends |
| HeaderTree.DirectiveIsRead | scripts/check-abi-table.py:143-154 | every `#if...` line opens a band with the condition the preprocessor tests, but for a macro that only begins like the guard; every `#endif...` line closes one; any other directive does neither |
| HeaderTree.BandIsRead | scripts/check-abi-table.py:116-118 | a band that asks for a version is read as asking for that version, with any blanks in it |
| HeaderTree.UnstableIsRead | scripts/check-abi-table.py:147-148 | so is the guard of the unstable surface, whatever follows the word |
| HeaderTree.LongerMacroIsMisread | scripts/check-abi-table.py:147-148 | and so, wrongly, is every macro whose name only begins like the guard's |
| HeaderTree.BuildScriptIsNewest | build.rs:109-153 | the build script, which ignores the bands, reads what the preprocessor leaves for the newest target with the unstable surface if and only if no pointer mark has a blank before its star |
| HeaderTwin.BodiesAgree | build.rs:118-125 | the script and the build script cut the same text out of a header, or both none, if and only if the first closing mark does not stand before the first opening one |
| HeaderTwin.CrossedMarksDiffer | build.rs:119-125 | where it does, the script takes the struct for empty and the build script does not |
| HeaderTwin.StructIsCut | scripts/check-abi-table.py:133 | both readers cut out the text from the first opening mark to the first closing one |
| HeaderTwin.ExtApiV1Fields | build.rs:109-153 | the loop returns the names after every `(*`, or the error for an alternative, an unexpected name, or no name |
| HeaderTwin.AlternativeIsRefused | build.rs:127-135 | a struct is refused for an alternative exactly if some line begins with `#else` or `#elif`, blanks aside |
| HeaderTwin.StarNamesAt | build.rs:136-148 | names are refused exactly for the first `(*` that no name beginning `duckdb_` follows |
| HeaderTwin.BuildReads | build.rs:109-153 | on every header of declarations, directives without alternatives and comment lines: the declarations whose mark it finds, in order, or an error if it finds none |
| HeaderScript.ScriptReads | scripts/check-abi-table.py:121-184 | on every such header: the first name of each run of declarations up to a line that ends in `;`, and nothing of a run left open at the end |
| HeaderScript.KeptIsExact | scripts/check-abi-table.py:156-161 | those are the names declared if and only if each declaration is ended in time; otherwise they are fewer |
| HeaderScript.ReadersAgree | build.rs:109-153 | on every such header the two readers agree if and only if the declarations with a tight mark are the ones the script keeps, and there is one |
| HeaderScript.EachReaderIsRight | build.rs:126-149 | each is right about a header under its own condition: the build script if and only if every mark is tight, the script if and only if each declaration is ended in time |
| HeaderScript.LooseMarkExample | build.rs:136-149 | a blank before the star of the only pointer: the build script finds no field, the script finds it |
| HeaderScript.TrailingCommentExample | scripts/check-abi-table.py:156-161 | a comment after a semicolon: the script drops the next declaration, whatever the names and the comment |
| ApiShim.GeneratedCShim | build.rs:156-194 | the loop writes the whole C file, line by line |
| ApiShim.ShimReads | build.rs:156-194 | all that the file does, read back as C: two includes, one pointer per field, the version, and a function that declares the slots, assigns field `i` to slot `i`, each once and in order, and ends |
| ApiShim.FillFrom | build.rs:162-194 | running the assignments after the declaration of the slots fills every slot with its own field, whatever it held |
| ApiShim.ShimMatchesScript | build.rs:109-194 | from header text through C text to struct: slot `i` of the filled struct is the `i`-th declaration the build script finds, and where the readers agree the `i`-th name the script reads |
| Appender.Handle.EndRow | src/appender/rows.rs:86-104 | it succeeds exactly on an open appender with every column in and no failing flush; a row reported appended is in the table or buffered; the column returns to zero and the row is counted exactly when DuckDB ended it, reported or not |
| Appender.Handle.Row | src/appender/rows.rs:52-72 | before a row of its own it fails and does nothing; success means that the closure returned and the row ended; any other ending is an error after which nothing has happened beyond the closure's own calls, and the appender is poisoned if and only if a value of the row is in; what a poisoned one holds has been reported |
| Appender.Handle.FlushRows | src/appender/lifecycle.rs:29-34 | it succeeds exactly between rows of an open appender when DuckDB flushes: every buffered row is then in the table; after a failure each is still buffered or reported lost, and the count is kept |
| Appender.Handle.Close | src/appender/lifecycle.rs:50-65 | it succeeds exactly when closed already, or between rows of an open appender when DuckDB closes: nothing is then left to write; after a failure each buffered row is still there or reported lost |
| Appender.Handle.Clear | src/appender/lifecycle.rs:77-89 | it succeeds exactly when DuckDB clears: it discards exactly the buffered rows, lifts a poisoning and does not reopen a closed appender; a failure changes nothing |
| Appender.Handle.AppendChunk | src/appender/chunk.rs:37-52 | it succeeds exactly between rows of an open appender with a chunk that fits and no failing flush: all of the chunk's rows are then counted, and in the table or buffered; a failure acknowledges and counts none |
| Appender.Handle.Reshape | src/appender/construct.rs:299-327 | it succeeds exactly between rows of an open appender when DuckDB makes the change: every row of the old width is then in the table; after an error, a missing column included, the columns are as before and each row is buffered, in the table or reported lost |
| Appender.UseAppender | src/appender.rs:51-81 | on the class itself, after any calls on a new appender: an acknowledged row is in the table, buffered, cleared, or lost and reported, and the column is DuckDB's |
| Appender.RunInv | src/appender.rs:40-81 | every single call, nested closures included, keeps the ledger: each row DuckDB was ever given is in exactly one place, losses are reported, columns are in step |
| Appender.RunAllInv | src/appender.rs:40-81 | every sequence of calls keeps it |
| Appender.NoSilentLoss | src/appender.rs:51-81 | in every run an acknowledged row is in the table, buffered, deliberately cleared, or lost with an error returned no earlier than the loss; the wrapper's column is DuckDB's |
| Appender.CloseAccountsForEveryRow | src/appender/lifecycle.rs:50-65 | after a successful close nothing is buffered, and a run without errors and clears has put exactly the appended rows in the table |
| Appender.DropLosesExactly | src/appender.rs:338-348 | dropping loses an acknowledged row if and only if it was buffered, unless the appender was between rows and DuckDB's own close succeeded |
| Appender.SilentLossNeedsAnOpenDrop | src/appender.rs:45-50 | a row is lost without any error exactly when an open appender with such a row buffered is dropped within a row or DuckDB's close fails; never once closed or poisoned |
| Appender.RowIsAllOrPoison | src/appender/rows.rs:52-72 | in every run: after any closure the appender is between rows or poisoned, a closure that did not return is never a success, and what a poisoned appender holds has been reported |
| Appender.DroppedRowExample | src/appender.rs:45-50 | the smallest silent loss: one row, and a drop whose close fails |
| Appender.PoisonIsSticky | src/appender.rs:267-275 | over any calls but a successful `clear`, however many, a poisoned appender refuses each, leaves DuckDB alone and keeps its rows reported; a successful `clear` reopens it |
| Appender.ClosedIsFinal | src/appender/lifecycle.rs:50-89 | over any calls on a closed appender nothing is written, acknowledged or lost any more, and exactly `close` and `clear` succeed |
| Appender.CountIsExact | src/appender.rs:299-322 | for every run, closures included: the count of rows at risk is right throughout if and only if no call in it strands a chunk beyond the count |
| Appender.BufferedNeverUndercounts | src/appender.rs:299-322 | so on an engine that discards the rows of a failed flush it is never too low |
| Appender.UndercountIsAStrandedChunk | src/appender/chunk.rs:37-52 | where the count is right, a call makes it too low if and only if it is a chunk whose automatic flush fails on an engine that keeps its rows, and the count has no slack for them |
| Appender.StrandedChunkExample | src/appender/chunk.rs:20-52 | the smallest run with a count of zero and a row held |
| ExceptionJson.Pair | src/expression.rs:299-311 | a decoded surrogate pair lies in 0x10000..=0x10FFFF |
| ExceptionJsonGrammar.BlanksAre | src/expression.rs:239-249 | the characters skipped between tokens are the five ASCII blanks, and those trimmed around the text the 25 of Unicode white space |
| ExceptionJson.ParseHex4 | src/expression.rs:324-331 | four digits of either case or nothing, and how far the iterator has moved |
| ExceptionJson.ParseUnicodeEscape | src/expression.rs:296-311 | one escape, a pair being consumed whole |
| ExceptionJson.ParseJsonString | src/expression.rs:282-322 | the loop over the iterator returns the literal's value and leaves the iterator just past its closing quote |
| ExceptionJson.ParseKeyValue | src/expression.rs:251-262 | one member with the blanks around its parts |
| ExceptionJson.ParseExceptionJson | src/expression.rs:232-280 | the whole parser computes the function the grammar theorem is about, and terminates on every input |
| ExceptionJsonGrammar.HexIsSpelled | src/expression.rs:324-331 | the value read from four digits is the place value of the hex digits a writer would put, in either case |
| ExceptionJsonGrammar.EscapeIsKnown | src/expression.rs:292-311 | the two-character escapes read are the eight of section 7 of RFC 8259, with its meanings |
| ExceptionJsonGrammar.LiteralIsGrammar | src/expression.rs:282-322 | the string parser returns a value and a rest if and only if what precedes the rest is a quoted spelling of that value |
| ExceptionJsonGrammar.EveryEscapingIsInverted | src/expression.rs:282-322 | whatever section 7 of RFC 8259 lets a writer choose for each character, decoding returns the original string |
| ExceptionJsonGrammar.LoneSurrogateIsRejected | src/expression.rs:296-311 | after any accepted text, an escaped surrogate that does not start a pair makes the literal invalid |
| ExceptionJsonGrammar.PairOfUtf16 | src/expression.rs:299-309 | a scalar value's own UTF-16 pair decodes to it |
| ExceptionJsonGrammar.CollectIsLast | src/expression.rs:245-268 | the two result variables end up holding the last values of their keys |
| ExceptionJsonGrammar.ParserIsGrammar | src/expression.rs:232-280 | the parser returns a type and a message if and only if the trimmed text is, whole, a flat object of strings (section 4 of RFC 8259) whose last two values are these |
| ExceptionJsonGrammar.PrintedObjectIsParsed | src/expression.rs:232-280 | every rendering of an object with both keys, members in any order, repeated or unknown, blanks anywhere, is read back |
| FileHandle.OverwriteTwice | src/file_system.rs:555-568 | consecutive writes are one write |
| FileHandle.OverwriteReadsBack | src/file_system.rs:544-568 | a write is read back, and nothing before or after it changes |
| FileHandle.Handle.ReadExact | src/file_system.rs:478-506 | it fails with the file system's error exactly when a call failed; otherwise it fills the buffer with the file's bytes if and only if the file has enough, however little is served at a time; a failure leaves the bytes read at the front |
| FileHandle.Handle.ReadToEnd | src/file_system.rs:508-542 | unless a call fails it keeps the old contents and appends exactly the rest of the file; after a failed call it has appended exactly the bytes read so far |
| FileHandle.Handle.WriteAll | src/file_system.rs:544-568 | unless a call fails, or takes nothing, it writes every byte; otherwise it has written exactly a proper prefix |
| FileHandle.Handle.Seek | src/file_system.rs:578-590 | a position past `i64`, and no other, is refused without a call and without moving |
| FileHandle.WriteSeekRead | src/file_system.rs:478-590 | write, seek back, read: with no failed call and no write that takes nothing it succeeds for every position within `i64`, the bytes read are the bytes written, and the rest of the file is untouched, however little is served at a time |
| ChunkWriter.RuntimeVectorSize | src/chunk_writer.rs:77-88 | the engine's size unless that is zero, and then 2048 |
| ChunkWriter.Writer.NextRow | src/chunk_writer.rs:163-170 | the claimed rows are always `0..row_count`, at most the capacity |
| ChunkWriter.Writer.ReleaseRow | src/chunk_writer.rs:193-204 | only the row claimed last can be given back |
| ChunkWriter.Writer.Drop | src/chunk_writer.rs:312-319 | publishes the rows claimed and kept |
| ChunkWriter.Scan | src/chunk_writer.rs:13-53 | one call publishes exactly the next items of the source, none stale, and takes exactly those |
| ChunkWriter.ScanAskingFirst | src/chunk_writer.rs:54-57 | asking the source before claiming: one call publishes the next items and hands back the one that found the chunk full |
| ChunkWriter.ScanAllAskingFirst | src/chunk_writer.rs:54-57 | with that item handed on to the next call, the whole scan publishes the source exactly, in the same number of calls |
| ChunkWriter.ScanAll | src/chunk_writer.rs:13-53 | over one reused chunk, whatever it held, the published chunks concatenate to the source, and an empty one ends the scan |
| ChunkWriter.CallsIsCeiling | src/chunk_writer.rs:13-53 | that takes `ceil(n / c) + 1` calls |
| CfgPredicate.SplitArgsLoop | scripts/check-api-coverage.py:155-167 | the depth-counting loop cuts the text at its top-level commas and drops the empty pieces |
| CfgPredicate.PiecesAtCommas | scripts/check-api-coverage.py:155-167 | any text is cut at the first comma before which as many parentheses close as open, and the rest likewise; without one it is a single piece |
| Text.StripIsCore | scripts/check-api-coverage.py:167-172 | stripping returns the only part of a text that blanks surround and that neither begins nor ends with one |
| CfgPredicate.SplitRecoversArgs | scripts/check-api-coverage.py:155-167 | it recovers the arguments of every printed call, however deeply nested, with any blanks and a trailing comma |
| CfgPredicate.MatchCallIsRegex | scripts/check-api-coverage.py:175 | a predicate is read as a call exactly if the whole of it is one of the three words, blanks, and a parenthesised rest |
| CfgPredicate.TextIsAnalysed | scripts/check-api-coverage.py:170-183 | analysing the printed text is analysing the predicate |
| CfgPredicate.NeedsTestIsSound | scripts/check-api-coverage.py:170-183 | a predicate called test-only is false under every valuation without tests |
| CfgPredicate.PositiveIsDecided | scripts/check-api-coverage.py:170-183 | without `not` and empty `any` it is called test-only exactly when setting every flag does not make it hold without tests |
| CfgPredicate.RequiresTestDecides | scripts/check-api-coverage.py:170-183 | from the text, for flags with balanced parentheses and no comma outside them: sound for all predicates, complete for those |
| CfgPredicate.DoubleNegationIsMissed | scripts/check-api-coverage.py:170-183 | with `not` it is not complete |
| CfgPredicate.EmptyAnyIsMissed | scripts/check-api-coverage.py:170-183 | nor with an empty `any` |
| CfgPredicate.ParenthesesAreInert | scripts/check-api-coverage.py:155-183 | a literal with commas inside parentheses of its own is read as one argument |
| CfgPredicate.AllOfText | scripts/check-api-coverage.py:170-183 | whatever stands in `all(...)`, it is called test-only if and only if one of the pieces between its outer commas is |
| CfgPredicate.AnyOfText | scripts/check-api-coverage.py:170-183 | and in `any(...)` if and only if there is a piece and all are |
| CfgPredicate.AllOfOneFlag | scripts/check-api-coverage.py:155-183 | `all` of one flag is analysed rightly if and only if no piece between the outer commas of the flag's text is test-only by itself |
| CfgPredicate.LiteralCommaMisleads | scripts/check-api-coverage.py:155-183 | the family that fails: a value that holds `,test,` |
| LoadProtocol.Host.CatchRegistrationPanic | src/entry_point.rs:961-973 | the closure registers until it is refused, and a refusal and a panic are errors; what it registered stays in the transaction or the configuration |
| LoadProtocol.Host.Run | src/entry_point/registration.rs:121-165 | the catalog gets all of a transaction or nothing; the configuration keeps whatever was registered |
| LoadProtocol.Host.EnforceAbiPolicy | src/entry_point.rs:1012-1048 | only a refusing verdict stops the load; only a warning one warns |
| LoadProtocol.Host.DatabaseFromAccess | src/entry_point.rs:777-813 | no database is a quiet end, no accessor an error |
| LoadProtocol.Host.InitExtensionInternal | src/entry_point.rs:690-775 | the first step that does not go through decides, step by step: which are an error, which a quiet end, whether a connection was opened, whether a warning came; and every connection is closed again |
| LoadProtocol.Host.ReportError | src/entry_point.rs:1093-1117 | one report if there is anyone to tell |
| LoadProtocol.Host.LoadExtension | src/entry_point.rs:818-890 | for every outcome of every step, the first that does not go through decides what is reported: nothing for an API version this DuckDB lacks or a database it did not hand out, one error for any other, if there is anyone to tell; connects equal disconnects, the closure runs at most once and after an admitting verdict, success is the closure's committed success, and a failed transactional load leaves the catalog as it was |
| LoadProtocol.StopsAtFirstTaken | src/config_option.rs:313-361 | a closure stops exactly at its first catalog entry or option whose name is taken, in the database or by the closure itself |
| LoadProtocol.AfterByParts | src/entry_point.rs:42-48 | registering again adds names, replaces a cast and appends a scan |
| LoadProtocol.RetryWorksExactly | src/entry_point.rs:28-48 | after any failed transactional loads, a load that would have succeeded before them succeeds if and only if none of them left a configuration option that it registers |
| LoadProtocol.AutocommitRetryStops | src/entry_point.rs:37-40 | outside a transaction a retry stops exactly at the first catalog entry or option that an earlier load left |
| LoadProtocol.FailedCommitBlocksRetry | src/entry_point.rs:46-48 | registering options last does not help where the commit fails: every later load of that closure is refused |
| LoadProtocol.Retry | src/entry_point.rs:28-48 | the same on the host: failed loads and then one more leave the catalog as if only the last had been tried |
| ExtraInfo.Memory.TaggedRef | src/extra_info.rs:181-194 | a value exactly when the pointer is not null and the stored type is the one asked for |
| ExtraInfo.Memory.DropTagged | src/extra_info.rs:162-172 | frees the allocation once, and nothing for null |
| ExtraInfo.Memory.IntoTagged | src/extra_info.rs:131-152 | a new allocation, nothing else moved |
| ExtraInfo.Info.MarkTransferred | src/extra_info.rs:84-86 | sets the flag that keeps the drop from freeing the payload |
| ExtraInfo.Info.Drop | src/extra_info.rs:89-108 | frees an untransferred payload that has a destructor, and nothing else |
| ExtraInfo.RunConserves | src/extra_info.rs:34-108 | in every run each payload is in exactly one place: owed by one builder, held by the engine, freed once, or given without a destructor |
| ExtraInfo.FreedExactlyOnce | src/extra_info.rs:34-108 | in every run a payload is never freed twice, never before its owner ends, and, when all owners are gone, exactly once if some builder was given it with a destructor, and never otherwise |
| ExtraInfo.Session.Create | src/extra_info.rs:63-70 | allocating a payload and building its owner is the machine's step |
| ExtraInfo.Session.Register | src/extra_info.rs:84-86 | so is marking it transferred when the engine takes it |
| ExtraInfo.Session.DropBuilder | src/extra_info.rs:89-108 | so is dropping a builder, which never frees a payload that is gone |
| ExtraInfo.Session.EngineDestroys | src/extra_info.rs:162-172 | so is the engine's destructor call, the payload being alive |
| Interval.TotalFitsI128 | src/interval.rs:187-194 | no product or partial sum of the exact total leaves `i128` |
| Interval.ConversionsAgree | src/interval.rs:183-212 | the exact conversion returns months of 30 days, days and microseconds added up, exactly when the sum fits `i64`; both conversions return the field-by-field checked sum whenever that succeeds; the saturating one is the nearest `i64` to the total |
| Interval.EpochUsFailsOnlyOnMixedSigns | src/interval.rs:147-153 | where fields share a sign `epoch_us` and the exact conversion never differ; the documented example does |
| Interval.NormalizeKeepsTotal | src/interval.rs:140-146 | DuckDB's carrying keeps the exact total |
| Interval.SameSignOrdersAgree | src/interval.rs:51-57 | where fields share a sign, comparing totals is SQL comparison, for less, greater and equal |
| Interval.NormalizedOrdersAgree | src/interval.rs:134-164 | it is enough that the carried fields share a sign |
| Interval.TotalsOrderExactly | src/interval.rs:134-164 | and that is exact: an interval compares by its total as SQL does with every same-sign interval if and only if its carried fields share a sign |
| Interval.MixedSignsDisagree | src/interval.rs:140-146 | the documented pair has equal totals and differs in SQL |
| SqlMacro.ParameterIsIdentifier | src/validate/function_name.rs:432-458 | a validated parameter name needs no escaping inside quotes |
| SqlMacro.NamesAccepted | src/validate/function_name.rs:347-458 | a macro name is accepted exactly if it is an identifier of at most 256 characters that is no reserved or uncallable word in any case; a parameter, if it is no reserved or unreferenceable one |
| SqlMacro.ValidatedIsNamed | src/sql_macro.rs:326-338 | nor does any name of a validated macro |
| SqlMacro.TextDeterminesMacro | src/sql_macro.rs:239-264 | name, parameters and body are read back from the statement of every validated macro |
| SqlMacro.StatementTexts | src/sql_macro.rs:476-548 | the statements in full for a table macro without parameters and a scalar macro with two, with and without a possible comment |
| SqlMacro.ToSqlIsInjective | src/sql_macro.rs:239-264 | two validated macros with one text are one macro |
| SqlMacro.LineNeedsDashes | src/sql_macro.rs:254-264 | a body that ends in a line comment has a `--` in it, so it gets the newline |
| SqlMacro.ParenthesisIsCode | src/sql_macro.rs:45-59 | the appended parenthesis is lexed as code if and only if the body ends in code or in a line comment |

## Left out

- Raw FFI, handle wrappers, pointer provenance, `Send` and `Sync`, and real threads.
- The Arrow, query, connection, catalog, configuration and secrets modules, and copy-format registration scopes.
- The literal slot numbers, table contents, keyword lists and wording of messages: tables and keyword lists are parameters.
- Downloading headers, listing tags, the `--print` mode of the script, and reading the tables out of the text of `src/abi.rs`.
- ReleaseCheck.ReadHeader: the regular expressions of `normalise` are a parameter, any function from text to text.
- ReleaseCheck.RowsAreSorted: a tag comes with its key; tags that are no version, which the script cannot sort, do not occur.
- Hash digests: declaration lists are compared themselves, so that a collision cannot occur in the model.
- White space and word characters beyond ASCII in the two header readers.
- HeaderTree.ScriptIsPreprocessor: bands with `#else` or `#elif` are excluded, because the script takes both branches there and the build script refuses them; unknown conditions count as true, as the script's documentation says; of a declaration over several lines only the last may end in `;`, and a comment must hold no pointer.
- ApiShim.ShimReads: C is read line by line, as far as the lines the generator writes need it.
- `strip`, `cfg_attrs`, `item_end` and `scan` of the coverage script: finding the attributes in Rust source, where the analysed text comes from.
- Appender: rows are numbered, not typed, and a chunk is a number of rows; out-of-range values, over-long text and null handles are one kind of refused append.
- `reserve_for_read` and buffer capacity in `FileHandle`, files opened for appending, and file systems that answer a read with zero bytes before the end of the file.
- `finish_with_size` and the vector accessors of `ChunkWriter`.
- `error_type_from_name` of the exception parser: a finite table.
- LoadProtocol.Host.LoadExtension: closures that carry on past a refused registration, or run transaction statements themselves, and macros that replace an entry of the same name.
- ExtraInfo.RunConserves: a destructor that panics is not modelled.
- SqlMacro.ParenthesisIsCode: a string continued after a line break, which in an escape string keeps its backslashes, counts as a new string.
- Running a macro's statement (`count_statements`, `execute_sql`).
- The duplicate entry point of the second C extension API version: the same steps with other names.

# Nivasa: proofs about the framework's parsers, shared state and request dispatch

Nivasa is a Rust web framework with a command-line tool. This project models the parts of it whose
correctness is hard to see from the code, and proves what they are for. There is one module per
component, and beside it the modules that hold its laws.

| component | modules |
|---|---|
| The rewriter that adds an item to a `#[module({ ... })]` attribute | `Text`, `ModuleMetadata` (the text format), `ModuleRewriter` (the source's loops), `ModuleArrays`, `ModuleFields`, `ModuleUpsert`, `ModuleTwice`, `ModuleGrammar` (which texts are accepted, in characters), `ModuleExamples`, `ImportBlock` |
| The relative path of a generated import | `RelativePath`, `RelativePathLaws`, `RelativePlaces` |
| The multipart upload parser | `Bytes`, `Multipart`, `MultipartBounds`, `MultipartRoundTrip`, `MultipartRules` (limits, and headers in any layout) |
| Expansion of environment variables | `EnvExpansion`, `EnvLaws`, `EnvReading` |
| The fixed-window throttler | `Throttler`, `ThrottlerLaws`, `ThrottlerWindows`, `ThrottlerGuarding` |
| The response cache, one request at a time and interleaved | `Cache`, `CacheHits`, `CacheInterleaving` |
| Request dispatch: two dispatchers, the pipeline's statechart, guards, pipes, interceptors, filters | `HttpTypes`, `RequestChart`, `InterceptorChain`, `Dispatch` (the stages), `Dispatchers` (the source's methods), `DispatchLaws`, `DispatchChart`, `DispatchOrder`, `DispatchStates`, `DispatchAgreement`, `DispatchMeaning` and `DispatchAnswers` (a dispatch told from the outside) |
| Server-sent events | `Sse`, `SseDecoder` (sections 9.2.5 and 9.2.6 of the WHATWG HTML Living Standard), `SseExact`, `SseComments`, `SseText` |
| The drawing of a statechart | `StatechartLayout`, `LayoutLaws`, `LayoutOrder`, `EscapeXml` |

Loops and objects that change in place are methods and classes. Each is proved to compute a function
of its inputs or of the old state, and the laws are lemmas about that function. `dafny verify
dfyconfig.toml` checks everything.

## What does not hold, and exactly when it does

- Printing module fields and parsing them again is the identity exactly when every field is well formed,
  which for fields read from a body means: no bracket and no string of the last value is left open
  (`FieldsRoundTripExactly`, `RoundTripExactly`; `OpenBracketChanges` is an input that fails). In exactly
  these cases the fields that an upsert prints are read back as they were printed (`UpsertReadsExactly`).
- A printed array is read back as the same items exactly when each item is trimmed, not empty, and closed
  without a top-level comma (`ArrayRoundTripExactly`; `OpenItemChanges` is an input that fails). The item
  scanner does not know strings.
- An upsert does what it is for (read back, every other field is as it was, and the target array has its
  old items, plus the type name exactly when it was missing) if and only if the module is stable: the last
  value of the body is closed, the target array is closed by its last bracket, and each of its items is
  one that the item scanner reads as one unit (`UpsertAddsExactly`). In exactly the same cases a second
  upsert gives the identical text (`UpsertTwiceExactly`), and, where the import lines stand outside the
  body, registering twice writes the same file (`RegisterTwiceExactly`). Two inputs that are not stable:
  a last value with an open bracket swallows the new array (`OpenModuleGrows`); in `a: ["(", "x"]`
  nothing is open, but the parenthesis in the string hides the comma from the item scanner
  (`ParenthesisInString`). A body without quotes whose brackets match is stable (`BalancedIsStable`).
- The relative path leads to a target without `..` exactly when no name it has to write contains a
  backslash, since the code replaces every backslash, and no `..` of the start directory lies beyond the
  common prefix, since the climb passes it over, unless only the root is common (`RelativeReaches`;
  `BackslashMisses` and `DotDotMisses` are inputs that fail).
- An encoded form is parsed into its parts exactly when the marker occurs in none of their header lines and
  contents (`SectionsOfEncoded`, `UploadRoundTripExactly`). The parser looks for the marker anywhere, while
  section 5.1.1 of RFC 2046 forbids it only at the start of a line: a file with the marker in mid-line is
  allowed there and is cut short here (`MidLineMarkerCuts`).
- Text without `$` is unchanged by expansion exactly when it is ASCII (`LiteralExactly`; `AccentChanges` is
  an input that fails): the code takes each byte for a character. Raising the depth cap never changes a
  value whose chains of references end within it (`CapIrrelevant`). If they reach one reference further, so
  that the last values are cut off, it changes nothing exactly when all values reached after exactly that
  many references are ASCII (`RaisingTheCap`; `AccentAtTheCap` is an input that fails).
- The throttler's windows are fixed. A denial means that the limit was used up during the preceding ttl
  (`DeniedOnlyWhenUsedUp`); the converse, on all runs, holds exactly when the limit is one request or the
  ttl is one tick of the clock (`SlidingExactly`; `SlidingFails` and `NotASlidingWindow` are runs where it
  does not). An interval of length T takes fewer than limit * (T / ttl + 2) requests (`AtMost`), a bound that
  runs with differing ttls reach (`AtMostReached`); with one ttl for all calls the maximum is
  limit * (T / ttl + 1) if the ttl divides T, and limit * (T / ttl + 2) - 1 otherwise, and every length
  has a run that reaches it (`AtMostFixed`, `AtMostFixedReached`). The constructor's documentation calls the guard a skeleton (nivasa-guards/src/lib.rs:493); the code enforces the limit.
- A reader of an event stream gets the messages that were meant exactly when no data has a carriage return,
  no comment adds a line of data, and no comment changes a name or an id (`SseExactly`): a reader takes the
  text after a carriage return inside a comment for a line of its own. If it ignores all those lines, only
  the data matters (`HarmlessExactly`). `CommentInjectsData` and `BrokenData` are inputs that fail.
- The documentation puts the interceptors before the pipes and all middleware before routing
  (nivasa-http/src/pipeline.rs:7-8, docs/request-lifecycle.md:37-46). In the code the interceptors run in
  the handler's state, after the pipes, and every middleware but the global one in the guard state, after
  routing (`EventsAtHome`). A run keeps to the documented order exactly when no middleware but the global
  one runs and not both a pipe and an interceptor do (`AsDocumentedExactly`; `PipeBeforeInterceptor` and
  `MiddlewareLeavesGuards` are runs that do not).
- The documentation promises that a failing stage goes on through `ErrorHandling` and `SendingResponse` to
  `Done` (docs/request-lifecycle.md:48-49). No failing run ever leaves `ErrorHandling`
  (`FailureStaysInError`), and when a middleware of a matched route answers, no transition is taken at all
  and the engine stays in the guard state (`MiddlewareLeavesGuards`), against the promise that every short
  circuit is a transition (statecharts/nivasa.request.scxml:13-14). The engine ends in `Done` exactly when
  every stage let the request through, every interceptor called next, and a response came back through them
  (`LeftInError`); an interceptor that answers early leaves it in the error state
  (`EarlyAnswerStaysInError`).

## Model

| member | source | states |
|---|---|---|
| `ModuleRewriter.FindModuleBody` | nivasa-cli/src/main.rs:750-772 | The loop finds the first attribute's body and the brace that closes it, with the same three errors |
| `ModuleRewriter.SkipValue` | nivasa-cli/src/main.rs:806-847 | The value scan stops at the first comma outside brackets and strings, or at the end |
| `ModuleRewriter.ParseField` | nivasa-cli/src/main.rs:787-855 | One round of the field loop reads one name, colon and trimmed value, moves forward, and fails as the format says |
| `ModuleRewriter.ParseModuleFields` | nivasa-cli/src/main.rs:774-858 | The scanner computes exactly the fields of the format, or its first error |
| `ModuleRewriter.ParseArrayItems` | nivasa-cli/src/main.rs:860-915 | The item scanner computes exactly the items of the format, or rejects a value that is not an array |
| `ModuleRewriter.RenderArrayItems` | nivasa-cli/src/main.rs:917-926 | The printed array |
| `ModuleRewriter.RenderModuleFields` | nivasa-cli/src/main.rs:928-950 | The printed fields |
| `ModuleRewriter.UpdateFields` | nivasa-cli/src/main.rs:722-743 | Only the first field of that name is rewritten; without one a field is added at the end |
| `ModuleRewriter.UpsertModuleMetadata` | nivasa-cli/src/main.rs:713-748 | The rewritten source, or the error of the first stage that fails |
| `ModuleArrays.ArrayRoundTrip` | nivasa-cli/src/main.rs:860-926 | Parsing a printed array returns its items |
| `ModuleArrays.ArrayRoundTripExactly` | nivasa-cli/src/main.rs:860-926 | It does so for exactly the lists whose items are each read as one unit |
| `ModuleArrays.ArrayIsComplete` | nivasa-cli/src/main.rs:799-847 | The field scanner reads a printed array as one value, with no string or bracket left open |
| `ModuleArrays.ItemsScanned` | nivasa-cli/src/main.rs:872-912 | Every item the scanner returns is trimmed, not empty and free of top-level commas; only the last may be open |
| `ModuleArrays.QuotelessArray` | nivasa-cli/src/main.rs:860-915 | The items of a balanced array without quotes are ones that both scanners agree on |
| `ModuleFields.FieldsOfLines` | nivasa-cli/src/main.rs:774-858 | Printed well-formed fields are read back in order, whatever text follows them |
| `ModuleFields.FieldsRoundTrip` | nivasa-cli/src/main.rs:774-950 | Parsing printed fields returns the fields |
| `ModuleFields.FieldsScanned` | nivasa-cli/src/main.rs:774-858 | Every parsed field has a proper name and a trimmed value; only the last value may be open |
| `ModuleFields.FieldsRoundTripExactly` | nivasa-cli/src/main.rs:774-950 | For every list of fields, parsing what was printed returns the list exactly when all its fields are well formed |
| `ModuleFields.RoundTripExactly` | nivasa-cli/src/main.rs:774-950 | For parsed fields that means: exactly when the last value is closed |
| `ModuleFields.OpenBracketChanges` | nivasa-cli/src/main.rs:774-950 | A parsed body that reads differently once printed |
| `ModuleUpsert.CloseOffsetSound` | nivasa-cli/src/main.rs:758-771 | The brace found closes the last open one, and none before it does |
| `ModuleUpsert.CloseOffsetComplete` | nivasa-cli/src/main.rs:758-771 | Text that closes no open brace, followed by a closing one, is found to end exactly there |
| `ModuleUpsert.FieldsBraces` | nivasa-cli/src/main.rs:774-858 | Parsing a body loses no brace and keeps their order, whatever the text |
| `ModuleUpsert.UpdatedBodyBraces` | nivasa-cli/src/main.rs:722-747 | Updating, printing and trimming leave the brace count of the body as it was |
| `ModuleUpsert.UpsertFrame` | nivasa-cli/src/main.rs:713-772 | All text before and after the body is kept, and brace counting on the output stops exactly at the end of the rewritten body |
| `ModuleUpsert.UpdateShape` | nivasa-cli/src/main.rs:722-743 | Which field is replaced or added, with every other field in its place |
| `ModuleUpsert.UpsertReadsExactly` | nivasa-cli/src/main.rs:713-858 | Parsing the output's body gives the updated fields exactly when these are well formed |
| `ModuleUpsert.UpsertReads` | nivasa-cli/src/main.rs:713-858 | It does so for every module whose target array and last value are in order |
| `ModuleUpsert.ItemIsNeutral` | nivasa-cli/src/main.rs:758-771 | A matched item cannot move the end of the body |
| `ModuleTwice.ItemsRun` | nivasa-cli/src/main.rs:805-926 | Printing the scanned items of an array again moves the field scanner as the array's own text did |
| `ModuleTwice.UpdatedExactly` | nivasa-cli/src/main.rs:713-748 | The updated fields are well formed exactly when the last value is closed and the target array is closed by its last bracket |
| `ModuleTwice.ReparseGrows` | nivasa-cli/src/main.rs:722-733 | Reading the printed target and inserting the item again changes nothing when its items are read as one unit each, and otherwise makes the array longer |
| `ModuleTwice.AgainExactly` | nivasa-cli/src/main.rs:713-950 | On the fields: the second update prints the same text exactly when they are stable, and otherwise fails or prints a longer one |
| `ModuleTwice.UpsertAddsExactly` | nivasa-cli/src/main.rs:713-915 | Read back, every other field has its name, value and place, and the target array has its old items, plus the type name exactly when it was missing: if and only if the module is stable, which can be checked before |
| `ModuleTwice.UpsertTwiceExactly` | nivasa-cli/src/main.rs:713-748 | A second upsert of the same type name returns the identical text if and only if the module is stable |
| `ModuleTwice.BalancedIsStable` | nivasa-cli/src/main.rs:713-748 | A body without quotes whose brackets match, also inside the target array, is stable |
| `ModuleGrammar.LayoutsRead` | nivasa-cli/src/main.rs:774-858 | Any list of fields, with any spaces, tabs, line ends and commas before each name, any blanks before its colon and any whitespace around its value, is accepted and read as that list |
| `ModuleGrammar.NameRefused` | nivasa-cli/src/main.rs:789-796 | After any such fields, a character that neither separates nor begins a name is refused |
| `ModuleGrammar.ColonRefused` | nivasa-cli/src/main.rs:798-803 | After any such fields, a name that no colon follows is refused |
| `ModuleGrammar.NodesRun` | nivasa-cli/src/main.rs:806-847 | Strings with escapes and groups in matching brackets bring the value scanner back to where it was, and hide their commas |
| `ModuleGrammar.ArrayRead` | nivasa-cli/src/main.rs:860-915 | An array in any layout, with empty places and with or without a last comma, is read as its items |
| `ModuleGrammar.NodesAreItem` | nivasa-cli/src/main.rs:860-915 | Paths, calls and groups without strings are items that both scanners read as one unit |
| `ModuleGrammar.LayoutFound` | nivasa-cli/src/main.rs:750-772 | The body is found between the brace after the attribute's name and the one that closes it, whatever stands around |
| `ModuleGrammar.BodyExactly` | nivasa-cli/src/main.rs:750-772 | There is a body if and only if the source is laid out like that; the attribute is missing exactly when it is nowhere in the text, the opening brace exactly when none follows it |
| `ModuleGrammar.UpsertAcceptsExactly` | nivasa-cli/src/main.rs:713-748 | A module in any layout is rewritten if and only if the first field of the name, if there is one, is an array |
| `ModuleExamples.EmptyModule` | nivasa-cli/src/main.rs:713-748 | In a module with an empty body, whatever follows it, the output is the one new array; the premises of the laws above hold there |
| `ModuleExamples.EmptyModuleText` | nivasa-cli/src/main.rs:917-950 | The same output character by character |
| `ModuleExamples.TypeNameIsItem` | nivasa-cli/src/main.rs:655-658 | Every type name is an item the laws apply to |
| `ModuleExamples.OpenModuleGrows` | nivasa-cli/src/main.rs:713-858 | A module with an open bracket in its last value, where a second upsert of the same item adds another field |
| `ModuleExamples.ParenthesisInString` | nivasa-cli/src/main.rs:713-915 | A module with nothing open whose array does not come back as the old items plus the new one, and whose text a second upsert changes |
| `ModuleExamples.OpenItemChanges` | nivasa-cli/src/main.rs:860-926 | A printed array that is read back as another one |
| `ImportBlock.EnsureImportBlock` | nivasa-cli/src/main.rs:690-711 | The source with the missing import lines in front |
| `ImportBlock.ImportText` | nivasa-cli/src/main.rs:690-711 | The added lines as text, in each of the four cases |
| `ImportBlock.ImportOnce` | nivasa-cli/src/main.rs:690-711 | Both lines are there afterwards, the source is kept behind them, and a second call changes nothing |
| `ImportBlock.RegisterGeneratedItem` | nivasa-cli/src/main.rs:660-688 | Imports first, then the attribute |
| `ImportBlock.RegisterTwiceExactly` | nivasa-cli/src/main.rs:660-688 | With the import lines outside the body, registering the same item again returns the identical text if and only if the module is stable |
| `ImportBlock.AddedOutside` | nivasa-cli/src/main.rs:690-711 | Import lines that had to be added do stand outside the body |
| `RelativePath.RelativePathString` | nivasa-cli/src/main.rs:952-996 | The loops compute the climb and the descent past the longest common prefix, and the error when the current directory is unknown |
| `RelativePathLaws.RelativeReaches` | nivasa-cli/src/main.rs:952-996 | Followed from the start directory, the result reaches exactly a target without `..`, if and only if no name past the common prefix has a backslash and no `..` of the start is passed over |
| `RelativePathLaws.StraightReaches` | nivasa-cli/src/main.rs:952-996 | For two paths of normal components only the backslashes matter |
| `RelativePathLaws.DotDotMisses` | nivasa-cli/src/main.rs:986-990 | A start directory with `..` from which the result misses the target |
| `RelativePathLaws.BackslashMisses` | nivasa-cli/src/main.rs:995 | A target that the result does not reach |
| `RelativePathLaws.RelativeIsShortest` | nivasa-cli/src/main.rs:973-995 | The result takes as many steps as the two places are apart, and no relative path between them takes fewer |
| `RelativePlaces.PieceByPiece` | nivasa-cli/src/main.rs:970-971 | Where a path leads, piece by piece: nothing and `.` stay, `..` goes up, a name goes down |
| `RelativePlaces.MadeAbsoluteLeads` | nivasa-cli/src/main.rs:955-968 | A relative path leads, joined to the current directory, where it leads from there; only a relative path asks for the directory, and fails with it |
| `RelativePlaces.AnywhereReaches` | nivasa-cli/src/main.rs:952-996 | From any current directory and for any two paths, absolute or relative: the result leads to the target without `..` under exactly the same condition |
| `Bytes.FindBytes` | nivasa-http/src/upload.rs:717-721 | The first occurrence, or the certainty that there is none |
| `Bytes.SplitOnce` | nivasa-http/src/upload.rs:712-715 | The text around the first occurrence of the delimiter |
| `Multipart.TakeSection` | nivasa-http/src/upload.rs:684-707 | One round of the section loop: where the section starts and ends and where the next marker stands |
| `Multipart.MultipartSections` | nivasa-http/src/upload.rs:677-710 | The loop collects exactly the sections of the body, or reports the missing closing boundary |
| `Multipart.ParseHeaders` | nivasa-http/src/upload.rs:597-626 | The name, filename and content type that the header lines give |
| `Multipart.ParsePart` | nivasa-http/src/upload.rs:593-672 | One part: skipped, rejected by its headers, field, type or size, or accepted |
| `Multipart.ParseUploadedFiles` | nivasa-http/src/upload.rs:573-675 | The stream limit, the boundary, the sections and every part in order, with the first error |
| `MultipartBounds.FirstSectionDelimits` | nivasa-http/src/upload.rs:684-707 | A section contains no marker and stands between two markers |
| `MultipartBounds.SectionsDelimited` | nivasa-http/src/upload.rs:677-710 | On any bytes, the sections are ordered, disjoint, at least a marker apart, and free of the marker |
| `MultipartBounds.PartAccepted` | nivasa-http/src/upload.rs:628-671 | An accepted file is the end of its part and obeys the field list, the type list and the size limit of its field |
| `MultipartBounds.UploadAccepted` | nivasa-http/src/upload.rs:573-675 | Every accepted file obeys the limits, and all files together are no longer than the body and the stream limit |
| `MultipartRoundTrip.MultipartBody` | nivasa-http/src/upload.rs:797-819 | The encoder writes the structured form of the parts |
| `MultipartRoundTrip.MarkerFreeExactly` | nivasa-http/src/upload.rs:797-819 | The marker occurs in the text of a part exactly when it occurs in one of its header lines or its content |
| `MultipartRoundTrip.SectionsOfEncoded` | nivasa-http/src/upload.rs:677-710 | Splitting an encoded body gives one section per part, with exactly its text, if and only if the marker occurs in no part |
| `MultipartRoundTrip.PartRead` | nivasa-http/src/upload.rs:593-672 | Reading the text of one part gives the part, or the limit it breaks, whatever the marker |
| `MultipartRoundTrip.UploadRoundTrip` | nivasa-http/src/upload.rs:573-710 | Parsing an encoded body returns the names, types and bytes of all parts in order, or the first limit broken |
| `MultipartRoundTrip.UploadRoundTripExactly` | nivasa-http/src/upload.rs:573-710 | Parts within the limits are returned if and only if the marker occurs in none of them |
| `MultipartRoundTrip.MidLineMarkerCuts` | nivasa-http/src/upload.rs:693-705 | A form that the standard allows and the parser does not return |
| `MultipartRoundTrip.ExtractRoundTrip` | nivasa-http/src/upload.rs:458-571 | The two interceptors return exactly the files of their field, or say that it is missing or repeated |
| `MultipartRoundTrip.ExtractExactly` | nivasa-http/src/upload.rs:552-571 | For a form of one field, the interceptor returns its files if and only if the marker occurs in none of them |
| `MultipartRules.CheckedExactly` | nivasa-http/src/upload.rs:646-666 | A file is accepted exactly when its field and type are listed and it is no longer than the limit of its own field or, without one, the limit for any field; otherwise the first of the three errors, with the limit in force |
| `MultipartRules.PartAcceptedExactly` | nivasa-http/src/upload.rs:593-672 | Any part is read as without limits; a file so read is accepted if and only if it is listed and within its own field's limit, whatever the limit for any field, or within that one if its field has none |
| `MultipartRules.UploadWithinLimits` | nivasa-http/src/upload.rs:573-672 | Every file of an upload is listed and within the limit of its own field, or else the one for any field |
| `MultipartRules.StreamRules` | nivasa-http/src/upload.rs:578-588 | The boundary is asked for first, and then the size of the whole body |
| `MultipartRules.LinesRead` | nivasa-http/src/upload.rs:597-626 | Header lines in any layout, with names in any case, quoted and unquoted parameters and unknown headers: the last name, filename and type count |
| `MultipartRules.ColonlessRefused` | nivasa-http/src/upload.rs:602-606 | A line without a colon is refused |
| `MultipartRules.PartMeaning` | nivasa-http/src/upload.rs:593-672 | A part with such lines: refused without a field name, passed over without a filename, and otherwise that file with the bytes after the first blank line |
| `EnvExpansion.ExpandEnvValue` | nivasa-config/src/lib.rs:631-697 | The index loop computes the expansion of the value's tokens, and the value itself past the depth cap |
| `EnvExpansion.ExpandEnvValues` | nivasa-config/src/lib.rs:621-629 | Every value is expanded against the values as they were loaded |
| `EnvLaws.TemplateMeaning` | nivasa-config/src/lib.rs:631-716 | Expanding a printed template is joining its literals with the expansions of the looked-up values |
| `EnvReading.ReadFromTheFront` | nivasa-config/src/lib.rs:631-716 | In characters: a braced or bare name stands for the process environment's value, only without one for the file's, and else for nothing, one level deeper; any other front byte is copied; nine levels are expanded and deeper values stay as they are |
| `EnvReading.FrontsAreComplete` | nivasa-config/src/lib.rs:640-716 | Every text begins in exactly one of these ways, with one name and one rest |
| `EnvLaws.LiteralExactly` | nivasa-config/src/lib.rs:640-646 | Text without `$` is unchanged exactly when it is ASCII |
| `EnvLaws.CapIrrelevant` | nivasa-config/src/lib.rs:631-697 | Where every chain of references ends within the cap, capped expansion is uncapped expansion, whatever the bytes |
| `EnvLaws.RaisingTheCap` | nivasa-config/src/lib.rs:631-697 | With chains up to one reference longer, capped expansion is the uncapped one, and the one under any higher cap, if and only if the values that are cut off are ASCII |
| `EnvLaws.AccentAtTheCap` | nivasa-config/src/lib.rs:632-634 | A loaded value whose expansion a higher cap would change |
| `EnvLaws.AccentChanges` | nivasa-config/src/lib.rs:642-646 | A text that expansion changes although it has no reference |
| `EnvLaws.CapIsTight` | nivasa-config/src/lib.rs:632-634 | One reference more, and for every cap there are values whose expansion stops short |
| `EnvLaws.SelfReference` | nivasa-config/src/lib.rs:631-697 | A variable that refers to itself expands to its own reference, at any depth |
| `Throttler.InMemoryThrottlerStorage.Allow` | nivasa-guards/src/lib.rs:114-143 | The new counter map and the decision as a function of the old map and the call |
| `Throttler.ThrottlerGuard.AllowsRequest` | nivasa-guards/src/lib.rs:519-548 | The guard's own decisions, else the store's decision on the limit and ttl in force |
| `ThrottlerGuarding.GuardExactly` | nivasa-guards/src/lib.rs:519-548 | Decision and counters of one request, in numbers: no limit or ttl denies, a skipped route passes uncounted, an override takes the configured value's place (a limit modulo 2^32), and a window is new or open |
| `ThrottlerGuarding.SkippedDoNotCount` | nivasa-guards/src/lib.rs:519-548 | In every run of requests, skipped routes pass, and the others are decided as if the skipped ones had not been there |
| `ThrottlerLaws.WindowKeepsCount` | nivasa-guards/src/lib.rs:114-143 | The invariant of every run: windows open at least ttl apart and none lets more than the limit through |
| `ThrottlerLaws.AtMost` | nivasa-guards/src/lib.rs:114-143 | Any closed interval of length T lets fewer than limit * (T / ttl + 2) requests of a key through |
| `ThrottlerLaws.OtherKeysDoNotMatter` | nivasa-guards/src/lib.rs:124-143 | The decisions for a key are those of a run with only its own calls |
| `ThrottlerLaws.CountersRefineHistory` | nivasa-guards/src/lib.rs:114-143 | With a fixed limit and ttl every decision is the one the earlier let-through times determine |
| `ThrottlerLaws.DeniedOnlyWhenUsedUp` | nivasa-guards/src/lib.rs:136-138 | A denial means that `limit` requests of the key were let through during the preceding ttl |
| `ThrottlerLaws.NotASlidingWindow` | nivasa-guards/src/lib.rs:131-134 | The converse fails, on a concrete run |
| `ThrottlerWindows.SlidingExactly` | nivasa-guards/src/lib.rs:114-142 | Every decision of every run is that of a sliding window if and only if the limit is one request or the ttl one tick |
| `ThrottlerWindows.SlidingFails` | nivasa-guards/src/lib.rs:131-134 | For every other limit and ttl, a run with a decision that is not |
| `ThrottlerWindows.AtMostReached` | nivasa-guards/src/lib.rs:114-142 | For every limit, ttl and length, a run that reaches the bound of AtMost |
| `ThrottlerWindows.AtMostFixed` | nivasa-guards/src/lib.rs:114-142 | With one limit and ttl, an interval of length T takes at most limit * (T / ttl + 1) requests if the ttl divides T, and at most limit * (T / ttl + 2) - 1 otherwise |
| `ThrottlerWindows.AtMostFixedReached` | nivasa-guards/src/lib.rs:114-142 | For every limit, ttl and length, a run with one limit and ttl that takes as many |
| `Cache.CallHandler.Handle` | nivasa-interceptors/src/lib.rs:205-211 | The handler can be taken once, and is gone afterwards |
| `Cache.CacheInterceptor.Intercept` | nivasa-interceptors/src/lib.rs:583-619 | The new store and the answer of one request, and whether its handler ran |
| `Cache.RecordsCovered` | nivasa-interceptors/src/lib.rs:583-619 | After any sequential run a recorded response still answers for its key, or is ttl old |
| `Cache.RecordsApart` | nivasa-interceptors/src/lib.rs:583-619 | Two recorded handler runs for a key are at least ttl apart; without a ttl there is at most one |
| `CacheHits.HitExactly` | nivasa-interceptors/src/lib.rs:583-619 | In every sequential run a request is answered from the store if and only if a response for its key was recorded less than the ttl before, with exactly that response, and otherwise with its own handler's result |
| `CacheInterleaving.StepKeepsInvariant` | nivasa-interceptors/src/lib.rs:583-619 | What every step of every request keeps, under any interleaving |
| `CacheInterleaving.ReachableInvariant` | nivasa-interceptors/src/lib.rs:583-619 | The invariant holds in every reachable state |
| `CacheInterleaving.AnswersAreOwnOrFresh` | nivasa-interceptors/src/lib.rs:583-619 | Each answer is the request's own handler result, or a successful result of another request with the same key that was less than ttl old when checked |
| `CacheInterleaving.ErrorsAreNeverStored` | nivasa-interceptors/src/lib.rs:604-617 | Every stored value is a successful handler result for its key |
| `CacheInterleaving.CachingIsInvisible` | nivasa-interceptors/src/lib.rs:583-619 | If handlers answer by key alone, caching changes no answer, under any interleaving |
| `CacheInterleaving.AloneIsSequential` | nivasa-interceptors/src/lib.rs:583-619 | A request that is not interrupted takes exactly the steps of the sequential interceptor |
| `InterceptorChain.ChainRun.Handle` | nivasa-http/src/server.rs:1907-1946 | The recursive call handlers compute the right fold around the handler, leave the nested trace, and set the flag exactly when all forwarded |
| `InterceptorChain.ExecuteInterceptors` | nivasa-http/src/server.rs:1849-1879 | Outcome, classification and trace of the whole chain |
| `InterceptorChain.WellNested` | nivasa-http/src/server.rs:1907-1946 | Interceptors are entered in order and left in reverse, with the handler in the middle exactly when all forwarded |
| `InterceptorChain.HandlerRunsOnce` | nivasa-http/src/server.rs:1907-1946 | The handler runs once when every interceptor forwarded, and otherwise not at all |
| `InterceptorChain.ClassifiedByHandler` | nivasa-http/src/server.rs:1862-1878 | A completion is an answer after the handler ran, a short circuit one without it |
| `InterceptorChain.TransparentChain` | nivasa-http/src/server.rs:1907-1946 | Interceptors that pass the result on do not change the answer |
| `InterceptorChain.AfterEarly` | nivasa-http/src/server.rs:1907-1946 | Those before an early answer work on that answer; those after it do not matter |
| `DispatchMeaning.ChainExactly` | nivasa-http/src/server.rs:1849-1946 | A run is completed, cut short or failed if and only if outcomes lead back, each one made by its interceptor of the next, from the handler or from an early answer |
| `Dispatchers.ExecuteMiddlewareSequence` | nivasa-http/src/server.rs:1828-1847 | The request the sequence forwards, or the first answer, and which middlewares ran |
| `DispatchMeaning.ForwardedExactly` | nivasa-http/src/server.rs:1784-1847 | A sequence forwards r if and only if requests lead to it through every middleware, each passing its last one on |
| `DispatchMeaning.AnsweredExactly` | nivasa-http/src/server.rs:1784-1847 | It answers if and only if such requests lead to a middleware that passes nothing on, and its response is the answer |
| `DispatchMeaning.MatchingExactly` | nivasa-http/src/server.rs:1811-1826 | The route middlewares that run are those whose pattern matches the path and none of whose exclusions does, in order |
| `Dispatchers.ApplyGlobalPipes` | nivasa-http/src/server.rs:1638-1694 | The body after all pipes in order, or the first error; without pipes the body is not read |
| `DispatchMeaning.PipesExactly` | nivasa-http/src/server.rs:1638-1694 | The body is b if and only if values lead from the request's body through every pipe, each getting what the one before returned, to b; without pipes it is the body itself |
| `DispatchMeaning.PipesFailExactly` | nivasa-http/src/server.rs:1638-1694 | The error is e if and only if the body cannot be read as a value, with the error of that case, or e is what the first failing pipe returns on the values that came so far |
| `DispatchMeaning.PipesLogged` | nivasa-http/src/server.rs:1689-1691 | Which pipes run, and which one fails |
| `Dispatchers.SelectExceptionFilter` | nivasa-http/src/server.rs:1752-1782 | The loop picks the filter with the best score, the last one of the best |
| `DispatchMeaning.FilterExactly` | nivasa-http/src/server.rs:1713-1782 | A handler's filters go before its controller's and those before the global ones; in a list the last filter for the exception is taken, and only without any the last catch-all |
| `DispatchMeaning.ExceptionExactly` | nivasa-http/src/server.rs:1713-1750 | The answer is the filter's, a plain 500 when the filter panics, or the exception's summary when no filter takes it |
| `DispatchMeaning.EnvelopeExactly` | nivasa-http/src/server.rs:1881-1905 | The body as data in a JSON response, with the status and every printable header but the content type |
| `DispatchMeaning.FinalExactly` | nivasa-http/src/server.rs:2143-2250 | The request id, and the two headers for cross-origin access from the incoming origin, are set; all else stays |
| `Dispatchers.RequestPipeline.Advance` | nivasa-http/src/pipeline.rs:588-593 | An accepted event moves the engine; a refused one leaves it where it is |
| `Dispatchers.RequestPipeline.MatchRoute` | nivasa-http/src/pipeline.rs:320-346 | The route's captures go into the request and its outcome into the engine |
| `Dispatchers.RequestPipeline.EvaluateGuardChain` | nivasa-http/src/pipeline.rs:437-458 | Guards in order up to the first that does not pass, and the matching event |
| `Dispatchers.HandleRequest` | nivasa-http/src/server.rs:956-1282 | The live dispatcher answers as the stages say, for every chart and configuration |
| `Dispatchers.DispatchNivasaRequest` | nivasa-http/src/server.rs:1304-1622 | The in-memory dispatcher does too |
| `DispatchLaws.PassedMeansAll` | nivasa-http/src/pipeline.rs:437-458 | The chain passes exactly when every guard returns true |
| `DispatchMeaning.GuardsExactly` | nivasa-http/src/pipeline.rs:437-458 | Denied, or failed with e, if and only if some guard says so and all before it pass |
| `DispatchLaws.HandlerRunsOnlyWhenReached` | nivasa-http/src/server.rs:956-1282 | In every run the handler is called at most once, only when all stages before it forwarded, and on the request they made of it |
| `DispatchChart.ChartIsFollowed` | statecharts/nivasa.request.scxml:24-105 | With the shipped chart no transition is ever refused, and the state each run ends in |
| `DispatchChart.HandlerRunsExactlyWhenReached` | nivasa-http/src/server.rs:956-1282 | With the shipped chart the handler runs exactly when all stages forwarded |
| `DispatchAnswers.JourneyExactly` | nivasa-http/src/server.rs:956-1282 | The handler is reached with r if and only if there is a way to r: identified and named, through the global middleware, matched, through three middleware sequences, past every guard, with the body the pipes make, and every interceptor calling on |
| `DispatchAnswers.HandlerCalledExactly` | nivasa-http/src/server.rs:956-1282 | With the shipped chart the handler runs, once, exactly on the request such a way leads to, and otherwise not at all |
| `DispatchAnswers.AnsweredExactlyBy` | nivasa-http/src/server.rs:956-1622 | With the shipped chart the response is r if and only if r is the answer of one part of the server on the request as it came to it: a middleware, 404, 405 with the allowed methods, 403, a filter or summary for a guard's, pipe's or interceptor's error, the handler, or the interceptors' envelope |
| `DispatchAnswers.FinalAnswerExactly` | nivasa-http/src/server.rs:956-1622 | What a caller gets is that answer with the id and the cross-origin headers |
| `DispatchOrder.StopsAreLast` | nivasa-http/src/server.rs:956-1282 | Stages run in the code's order, the interceptors after the pipes, and nothing runs after the first that stops the request |
| `DispatchStates.EventsAtHome` | nivasa-http/src/server.rs:956-1282 | With the shipped chart, every event of every run happens in the one engine state of its kind |
| `DispatchStates.AsDocumentedExactly` | nivasa-http/src/pipeline.rs:7-8 | For every chart, a run keeps to the documented order if and only if no middleware but the global one runs and not both a pipe and an interceptor do |
| `DispatchStates.PipeBeforeInterceptor` | nivasa-http/src/server.rs:1112-1170 | A run with one pipe and one interceptor, in the wrong order |
| `DispatchStates.InDocumentedState` | nivasa-http/src/pipeline.rs:7-8 | The engine is in the documented state for routing, guards, pipes and the handler, and for no other event |
| `DispatchStates.LeftInError` | docs/request-lifecycle.md:48-49 | The engine ends in its final state if and only if every stage and every interceptor called on and a response came back; every other run leaves it in the error state, or in the guard state when a route's middleware answered |
| `DispatchStates.EarlyAnswerStaysInError` | nivasa-http/src/server.rs:1187-1199 | A run that an interceptor answers early, left in the error state |
| `DispatchStates.FailureStaysInError` | docs/request-lifecycle.md:48-49 | A run that fails and stays in the error state |
| `DispatchStates.MiddlewareLeavesGuards` | statecharts/nivasa.request.scxml:13-14 | A run that a route's middleware answers, after routing and without any transition |
| `DispatchAgreement.DispatchersAgree` | nivasa-http/src/server.rs:956-1622 | Both dispatchers give the same finalized response and the same events, whatever the chart |
| `DispatchAgreement.ChosenIsBest` | nivasa-http/src/server.rs:1752-1782 | The chosen filter has the best score, the last of the best; there is none exactly when all scores are zero |
| `DispatchAgreement.SpecificBeatsCatchAll` | nivasa-http/src/server.rs:1752-1782 | A filter for the exception itself beats every catch-all |
| `SseDecoder.SanitizedIsOneLine` | nivasa-http/src/response.rs:16-24 | A name or id always fits on one line, and is left alone exactly when it already does |
| `Sse.PushSseMultilineField` | nivasa-http/src/response.rs:32-39 | One prefixed line per line of the value, appended to the buffer |
| `Sse.Render` | nivasa-http/src/response.rs:577-599 | The lines of one frame, in order, and the empty line that ends it |
| `SseText.FrameText` | nivasa-http/src/response.rs:577-599 | The text of a frame: event, id, retry time, comments and data, in this order, and an empty line |
| `SseText.LineByLine` | nivasa-http/src/response.rs:32-39 | A value of several lines is written line by line, without a carriage return at the end of one |
| `Sse.IntoBody` | nivasa-http/src/response.rs:622-628 | The frames of all events, in order |
| `SseDecoder.LinesRoundTrip` | nivasa-http/src/response.rs:26-39 | A stream of written lines is read back as these lines |
| `SseDecoder.SseRoundTrip` | nivasa-http/src/response.rs:16-39 | A reader of the body dispatches exactly the events with data, in order, with name, data, last id and reconnection time |
| `SseExact.CarriedWhole` | nivasa-http/src/response.rs:32-39 | Data without carriage returns travels unchanged |
| `SseExact.DecodedLacksCr` | nivasa-http/src/response.rs:577-599 | No stream whatever delivers data with a carriage return |
| `SseComments.StreamSeen` | nivasa-http/src/response.rs:26-39 | Which lines a reader sees in the lines that were written, carriage returns or not |
| `SseComments.FramesVolume` | nivasa-http/src/response.rs:577-628 | Conservation: the data delivered is the events' own plus what the comments inject |
| `SseComments.SseExactly` | nivasa-http/src/response.rs:577-628 | The messages are the intended ones if and only if no data has a carriage return, no comment adds data, and none changes a name or an id |
| `SseComments.HarmlessExactly` | nivasa-http/src/response.rs:577-628 | If a reader ignores every line inside the comments, if and only if no data has a carriage return |
| `SseComments.CommentInjectsData` | nivasa-http/src/response.rs:590-592 | A comment that adds a line to the message after it |
| `SseComments.BrokenData` | nivasa-http/src/response.rs:594-596 | Data that does not come back |
| `StatechartLayout.Walk.Visit` | nivasa-cli/src/statechart.rs:351-393 | The recursive visit, on any child relation: the new boxes, the new visited set and the next row |
| `StatechartLayout.LayoutNodes` | nivasa-cli/src/statechart.rs:346-400 | The boxes of the whole walk |
| `StatechartLayout.CollectEdges` | nivasa-cli/src/statechart.rs:402-434 | One edge per transition of a boxed state whose first target has a box |
| `LayoutLaws.LaidProper` | nivasa-cli/src/statechart.rs:346-400 | What every step keeps: one row per box, distinct states, each box under the nearest one to its left, its parent |
| `LayoutLaws.ShowsExactlyReachable` | nivasa-cli/src/statechart.rs:346-400 | The boxes show exactly the states reachable from the top-level states, each once |
| `LayoutOrder.LaidInOrder` | nivasa-cli/src/statechart.rs:351-397 | Every state stands below the states listed before it, and all children of a state are drawn before the drawing leaves it |
| `LayoutOrder.BoxesInNumbers` | nivasa-cli/src/statechart.rs:366-388 | The box of row i in numbers: 40 + 240 times the column, 90 + 92 i, 54 high, 8 a byte wide between 120 and 220, with the name of its kind |
| `LayoutLaws.BoxesApart` | nivasa-cli/src/statechart.rs:366-388 | Rows are 92 apart and boxes 54 high, so none overlap; the column is the length of a way down to the state |
| `LayoutLaws.EdgesJoinBoxes` | nivasa-cli/src/statechart.rs:402-434 | An edge is drawn exactly for a transition between two boxed states: from x plus width of the one to x of the other, 27 below the top of each, with the event's name or `eventless` |
| `LayoutLaws.EdgesCounted` | nivasa-cli/src/statechart.rs:402-434 | No such transition is drawn twice |
| `LayoutLaws.OrderOnlyPermutes` | nivasa-cli/src/statechart.rs:409-431 | The hash map's order changes only the order of the edges |
| `EscapeXml.OnePass` | nivasa-cli/src/statechart.rs:436-443 | The five replacements escape each character once |
| `EscapeXml.EscapedInPlace` | nivasa-cli/src/statechart.rs:436-443 | Each of the five characters becomes its entity wherever it stands, and any other stays |
| `EscapeXml.XmlRoundTrip` | nivasa-cli/src/statechart.rs:436-443 | An XML reader gets the text back and meets no markup in it |

## Left out

- The statechart engine, parser, validator and code generator, the dependency container, the module orchestrator and the route registry. Route matching is a function of the request, the engine a table of transitions.
- Sockets, TLS, connection handling, timeouts, task scheduling, and the reading and writing of files. The dispatchers begin where the body has been collected, so the 413 and 408 answers before that, and CORS preflight, are not modelled.
- The JSON parser, the UTF-8 decoder, MIME and header parsing of the libraries: the multipart boundary is a parameter, JSON values are opaque, and the CORS values are functions of the configuration.
- Headers with several values, and header names other than in one case: a response maps each name to one value.
- `Dispatchers.HandleRequest`: a panic is modelled only where the code catches one, in handlers and filters; guards, pipes and middlewares are taken not to panic. A refused transition stops the request with an error page; that a debug build of the engine may stop there instead is not modelled.
- `InterceptorChain.ChainRun.Handle`: an interceptor either answers or calls next once and works on the result; the concurrency that `async` allows inside one interceptor is not modelled.
- `Throttler.ThrottlerGuard.AllowsRequest`: how the key is derived from the request is a parameter, and an override of a ttl in seconds is a number of clock ticks.
- `Cache.CacheInterceptor.Intercept`: how the key is derived is a parameter; a lock that a panic has poisoned is not modelled.
- `MultipartRoundTrip.ExtractRoundTrip`: asks that the marker occur in no part; for a form of several fields the converse fails, since a marker inside another field may leave the files of this one as they were. `ExtractExactly` has both directions for a form of one field.
- `ModuleTwice.UpsertAddsExactly`: is about type names, the only items the generators insert, as `ModuleTwice.UpsertTwiceExactly` is; `ModuleUpsert.UpsertAddsItem` and `ModuleUpsert.UpsertTwice` have one direction for other items.
- `ImportBlock.RegisterTwiceExactly`: asks that import lines the file already has do not stand inside the attribute body, which is printed anew.
- `RelativePathLaws.RelativeReaches`: is about targets without `..`, and paths are followed as text; Windows prefixes and symbolic links are not modelled.
- `LayoutLaws.BoxesApart`: coordinates are integers; the drawing's SVG text is not modelled.
- `Bytes.FindBytes`: asks for a needle that is not empty, as the library function it stands for does; the markers and delimiters of the parser never are.
- Integer widths other than the throttler's 32-bit counts.
- The HTTP status tables, exceptions, health checks, logging, playground pages, scaffolding templates, compression, procedural macros and benchmarks, which would add only easy members.

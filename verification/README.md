# Verified models of the Zavorth repository scripts

Dafny models of the self-contained algorithms in the repository's scripts, with proofs of what each of them
is for. `dafny verify dfyconfig.toml` checks everything.

Where a script works step by step (the cycle search, the recovery scan, the retention run, the Markdown
converter, the rewriter, the argument parser, the `.env` loaders) the model is a class or a method with the
same loop, proved against a function; the properties are lemmas about that function. Where a script is an
expression (quoting, normalizing, containment) the model is a function.

| files | what they model |
|---|---|
| `CycleKeys`, `ImportGraph`, `CycleSearch`, `CycleDetector`, `CycleNames`, `DotGraph` | `scripts/import-graph-check.ts`: the depth-first cycle search, its de-duplication, the summary and the DOT printer |
| `JsonGrammar`, `Json`, `JsonReader`, `JsonRoundTrip`, `JsonLayout`, `JsonDepth`, `JsonRecovery` | `qa/QaSupport.ts`: recovery of a JSON payload from mixed output, over a reader and a printer for JSON text; the reader is proved against the grammar in sections 2 to 7 of RFC 8259 |
| `FileTree`, `Retention`, `RetentionListing`, `RetentionWindow`, `RetentionBytes`, `RetentionDryRun`, `RetentionScope`, `RetentionPolicies` | `scripts/data-retention.ts`: walking, selecting, removing and accounting |
| `MarkdownHtml`, `MarkdownBlocks`, `MarkdownLines`, `MarkdownText` | `scripts/ios-app-review-notes-pdf.swift`: the Markdown-to-HTML state machine |
| `CatchPatterns`, `CatchRewriter`, `CatchFixpoint`, `CatchImport`, `CatchOnePass`, `CatchPlacement`, `CatchText` | `scripts/fix-empty-catch-blocks.js`: three global rewrites and the counter |
| `WindowsArgs`, `WindowsText` | `quoteWindowsArg` and its joined command line, `normalizeCliValue`, `readOptionValue` |
| `PinVersionArgs`, `PinVersionOutcomes` | `parseArgs` of `scripts/android-pin-version.ts` |
| `EnvFiles`, `EnvLines` | the two `.env` loaders |
| `Containment`, `PathResolution` | the lexical checks that a path stays inside a directory |
| `Text`, `Wrappers` | JavaScript white space, trimming and joining; the option type |

## Where the code falls short of what one would expect

Each of these is proved, with the exact condition under which the code does what is expected.

- The de-duplication key of a cycle joins its sorted nodes with "->". With node names that themselves hold
  "->" two different cycles can have one key; the later one is not reported (`ArrowNamesHideACycle`) and survives
  when the closing imports of the reported cycles are removed (`HiddenCycleSurvives`). The report breaks every
  import cycle exactly when no two cycles met have keys that confuse them (`BreaksEveryCycleIff`). For a set of
  names, the report is complete whatever the imports are exactly when no two node lists over the names that one
  search can meet are confused (`ReportsCompleteIff`); names without "->" are such a set. The pass/fail status is
  right for all names (`PassedIffAcyclic`).
- The edge keys of the DOT printer have the same weakness: an import off the cycles is painted red exactly when it
  and an import on a cycle are one text split at two places (`PaintsExactlyIff`, `ArrowNamesPaintTooMuch`).
- A module path listed twice keeps only its last list of imports, so a written self-import can pass
  (`RepeatedPathHidesSelfImport`). The searched graph is the graph of all imports exactly when the last listing of
  each path says all that its earlier listings say (`SearchesAllImportsIff`); a directory walk, which lists no path
  twice, gives such a list (`AdjListIsImports`).
- A retention policy that selected both files and directories could report bytes twice. Reported and freed bytes
  are equal exactly when no nonempty file is selected after something at or above it (`ReportedIsFreedIff`,
  `MixedPolicyCountsTwice`); all listed policies are of one kind, so the script's totals are right (`RunOfTheScript`).
- `normalizeCliValue` gives a quoted value back exactly when it has no caret and does not end with a double quote
  (`NormalizeUndoesQuoteIff`, `CaretAndQuoteAreLost`).
- A file of the sandbox whose first name starts with ".." is refused: the relative check takes it for a way out,
  the prefix check does not. That is the only difference between the two (`TestsDifferIff`, `DottedNameIsRefused`).
- The logger import can go to the very start of a file instead of after its last import
  (`UnendedImportComesSecond`). It goes after the line of the last import that lies in no match exactly when some
  line break from that import on lies in no match (`ImportPlacement`); a file that ends its last line is safe
  (`EndedFileIsSafe`).

## Reading of the source text

In the text of the repository a few operators are illegible. The model takes the evident reading:
`right.stats.mtimeMs - left.stats.mtimeMs` at `scripts/data-retention.ts:158` (newest first) and `/\.tsx?$/` at
`scripts/import-graph-check.ts:133` (a final ".ts" or ".tsx" is dropped from a label).

## Model

| member | source | states |
|---|---|---|
| CycleDetector.Detector.Dfs | scripts/import-graph-check.ts:88-114 | one call of `dfs` changes visited, inStack, pathStack and cycles as the search function says, and keeps inStack equal to the nodes of pathStack |
| CycleDetector.Detector.ReportCycle | scripts/import-graph-check.ts:89-100 | a node on the stack closes a cycle, which is added unless its key is already there |
| CycleDetector.Detector.StackIndex | scripts/import-graph-check.ts:90 | the first position of a node on the stack, -1 only if it is not there |
| CycleDetector.DetectCycles | scripts/import-graph-check.ts:77-121 | returns the cycles of the search over all modules |
| CycleDetector.Summarize | scripts/import-graph-check.ts:158-169 | the run passes exactly when the searched graph has no closed walk; totalEdges is the number of places where an import is written, and the number of cycles is at most that |
| ImportGraph.VisitShape | scripts/import-graph-check.ts:83-114 | at every step no node is discovered or finished twice, the path stack is a path of imports in discovery order, and every visited node is on it or finished |
| ImportGraph.Visit | scripts/import-graph-check.ts:88-114 | a call terminates on the set of unvisited nodes, restores the path stack and only adds to the rest |
| CycleSearch.VisitFound | scripts/import-graph-check.ts:89-98 | every cycle met is a closed walk along imports with distinct inner nodes in discovery order, and its closing import determines it |
| CycleSearch.VisitTopological | scripts/import-graph-check.ts:88-114 | every import of a finished node closes a met cycle or leads to a node finished earlier |
| CycleSearch.VisitAllCount | scripts/import-graph-check.ts:107-110 | how often a call meets the cycle closed by a given import |
| CycleDetector.PassedIffAcyclic | scripts/import-graph-check.ts:165 | no cycle is reported exactly when the searched graph has no cycle, self-imports included, for every list of modules |
| CycleDetector.BreaksEveryCycleIff | scripts/import-graph-check.ts:77-121 | removing the closing import of every reported cycle leaves no import cycle exactly when the key confuses no two cycles met, for every list of modules |
| CycleDetector.ArrowFreeReportBreaksEveryCycle | scripts/import-graph-check.ts:77-121 | for names without "->" it always leaves none |
| CycleDetector.UnreportedAvoids | scripts/import-graph-check.ts:90-97 | a cycle that was met and is not reported uses no closing import of a reported one, so it survives |
| CycleDetector.HiddenCycleSurvives | scripts/import-graph-check.ts:90-97 | for every name x, two modules named x and x -> x with a cycle that the report leaves whole |
| CycleNames.ReportsCompleteIff | scripts/import-graph-check.ts:77-121 | for a set of names: the report breaks every import cycle of all modules with these names exactly when no two node lists over them that one search can meet have equal keys and different nodes |
| CycleNames.MetTogether | scripts/import-graph-check.ts:88-114 | two cycles met in one search share no node, or start alike, or exactly one of them starts on the other |
| CycleNames.BothCanBeMet | scripts/import-graph-check.ts:88-114 | any two node lists that fit together so are met by the search of suitable modules over the same names |
| CycleNames.ArrowFreeNamesAreSafe | scripts/import-graph-check.ts:93 | names without "->" meet that condition |
| CycleNames.ArrowNamesClash | scripts/import-graph-check.ts:93 | every name x and the name x -> x do not |
| CycleDetector.ReportedCyclesAreReal | scripts/import-graph-check.ts:88-97 | every reported cycle is closed, repeats no inner node and runs along imports that are written |
| CycleDetector.DedupIsExactIff | scripts/import-graph-check.ts:92-97 | every cycle met is reported exactly when joining the sorted names confuses no two lists |
| CycleDetector.ClashFreeGraphIsExact | scripts/import-graph-check.ts:92-97 | a graph no two of whose cycles are confused by the key loses none |
| CycleDetector.DedupIsExact | scripts/import-graph-check.ts:92-97 | names without "->" make no such graph and lose no cycle |
| CycleDetector.ReportedWereMet | scripts/import-graph-check.ts:92-97 | reported cycles were met, have different keys and are reported once |
| CycleDetector.SameKeySameCycle | scripts/import-graph-check.ts:93-94 | two cycles of one search with the same nodes are the same sequence, although the key forgets order |
| CycleDetector.RepeatsAreDoubledImports | scripts/import-graph-check.ts:90-97 | a cycle is met as often as its closing import is written |
| CycleDetector.ArrowNamesHideACycle | scripts/import-graph-check.ts:93-97 | for every name x, two modules named x and x -> x whose second cycle is dropped |
| CycleDetector.AtMostOneCyclePerImport | scripts/import-graph-check.ts:158-168 | the number of reported cycles never exceeds the number of places where an import is written |
| CycleDetector.TotalEdgesCounts | scripts/import-graph-check.ts:158-168 | totalEdges is the number of pairs of a module position and an import position in it |
| CycleDetector.SearchesAllImportsIff | scripts/import-graph-check.ts:78-81 | the searched graph is the graph of all written imports exactly when the last listing of each path says all that its earlier listings say |
| CycleDetector.AdjListIsImports | scripts/import-graph-check.ts:78-81 | with distinct module paths it is |
| CycleDetector.RepeatedPathHidesSelfImport | scripts/import-graph-check.ts:78-81 | two listings of one path with a written self-import that passes |
| CycleKeys.ArrowFreeIff | scripts/import-graph-check.ts:93 | a name is without "->" exactly when it is no text with "->" in between |
| CycleKeys.JoinIsInjective | scripts/import-graph-check.ts:93 | without "->" in the names the joined text determines the list |
| CycleKeys.KeyDeterminesNodes | scripts/import-graph-check.ts:93 | without "->" in the names the key determines which nodes there are and how often |
| CycleKeys.KeyForgetsOrder | scripts/import-graph-check.ts:93 | the key depends only on which nodes there are and how often |
| CycleKeys.SortedInOrder | scripts/import-graph-check.ts:93 | the sorted list is in code unit order |
| DotGraph.GenerateDot | scripts/import-graph-check.ts:123-146 | the printed text, line by line, with an edge red exactly when its key is the key of an edge on a cycle |
| DotGraph.LinesAreText | scripts/import-graph-check.ts:131-142 | the line of an import on a cycle, of one off the cycles and of a module, letter by letter |
| DotGraph.PictureFrame | scripts/import-graph-check.ts:131-145 | the three lines before the modules and the one after them |
| DotGraph.LabelIff | scripts/import-graph-check.ts:133 | a label is the path without a final ".ts" or ".tsx", and the whole path exactly when it has neither |
| DotGraph.CollectEdgeKeys | scripts/import-graph-check.ts:124-129 | the collected keys are exactly the keys of the edges on the cycles |
| DotGraph.PrintDot | scripts/import-graph-check.ts:174-175 | for names without "->" the red edges are exactly the imports on reported cycles |
| DotGraph.SameEdgeKeyIff | scripts/import-graph-check.ts:124-129 | two imports have one key exactly when they are the same or one text with "->" at two places splits into both |
| DotGraph.PaintsExactlyIff | scripts/import-graph-check.ts:136-141 | the red edges are exactly the imports on the cycles exactly when no import off the cycles and import on one are such a text |
| DotGraph.ArrowNamesPaintTooMuch | scripts/import-graph-check.ts:136-141 | for all names a, b, c without "->" and a other than c: modules a, a -> b and c for which the import of b -> c in a lies on no cycle and is painted red |
| DotGraph.CycleEdgesAreRed | scripts/import-graph-check.ts:123-146 | every edge of every reported cycle is printed, in red |
| JsonRecovery.ExtractJsonPayloadFromText | qa/QaSupport.ts:17-51 | the scan returns the value, or fails, as ExtractMeaning says |
| JsonRecovery.CandidateIndexes | qa/QaSupport.ts:29-31 | the matches are exactly the brackets at line starts, in order |
| JsonRecovery.TryCandidates | qa/QaSupport.ts:37-48 | the counting-down loop finds the last candidate that parses |
| JsonRecovery.ExtractMeaning | qa/QaSupport.ts:17-51 | for the text between the white space at the ends of the output: a value is returned exactly when the grammar gives it to the whole text or, if to no whole text, to the last suffix that starts with a bracket at a line start; it fails exactly when there is none, and quotes the first 120 characters |
| JsonRecovery.PayloadIsRecovered | qa/QaSupport.ts:17-51 | for all preceding lines, or none, and all following white space, every text that the grammar gives to an array or object returns that array or object |
| JsonRecovery.ReportIsRecovered | qa/QaSupport.ts:63-68 | for every array or object, extraction from what the report writer wrote, alone or after any lines, returns that value |
| JsonRecovery.EarlyParseAgrees | qa/QaSupport.ts:23-48 | when the whole text is the text of an array or object the early parse gives what the scan alone would give |
| Text.SpaceIff | qa/QaSupport.ts:18 | the characters that `trim` takes off, one by one |
| JsonReader.ParseIffDenotes | qa/QaSupport.ts:24 | `JSON.parse` returns a value exactly for the texts to which the grammar of RFC 8259 gives it: any white space around each structural character, every spelling of every character, numbers by their parts |
| JsonReader.WellFormedIff | qa/QaSupport.ts:66 | the values that some text has are those whose numbers are numbers of the grammar |
| JsonDepth.NoSuffixParses | qa/QaSupport.ts:37-48 | no proper suffix of an array or object text that starts at a bracket is JSON, inside strings or not |
| JsonDepth.PrefixedFails | qa/QaSupport.ts:23-24 | log lines before an array or object text keep the whole from being JSON |
| JsonRoundTrip.ParseStringify | qa/QaSupport.ts:66 | reading what `JSON.stringify(v, null, 2)` printed gives v |
| JsonLayout.NestedTextIsShifted | qa/QaSupport.ts:66 | the two-space layout of nested arrays and objects, by the texts of their parts |
| Retention.Disk.RemoveCandidate | scripts/data-retention.ts:170-190 | the reported action, with the age ReportedPaths states, and the tree after it |
| Retention.Disk.ScanPolicy | scripts/data-retention.ts:145-168 | selects what KeptIsPrefix states before removing, then removes and reports in order, or throws for a root that is a file |
| Retention.Disk.Run | scripts/data-retention.ts:98 | runs the policies in order on one changing tree |
| Retention.WalkLoop | scripts/data-retention.ts:192-202 | lists every entry below a directory, each directory before what it holds |
| FileTree.RemoveConserves | scripts/data-retention.ts:180-217 | the size of the tree falls by exactly the size of what is removed |
| FileTree.SizeAfterRemove | scripts/data-retention.ts:204-217 | how many bytes are left at any path after removing any other |
| RetentionListing.SortIsSorted | scripts/data-retention.ts:158 | the sort is newest first and loses nothing |
| RetentionListing.SortIsStable | scripts/data-retention.ts:158 | entries with the same time keep their order |
| RetentionListing.WalkAfterRemove | scripts/data-retention.ts:192-202 | removing a path takes it and everything below it out of a listing, and nothing else |
| RetentionListing.CandidatesAfterRemove | scripts/data-retention.ts:151-158 | a policy's candidates after any removal are the former ones, in order, without what was removed |
| RetentionScope.CandidatesIff | scripts/data-retention.ts:145-158 | a policy's candidates are exactly the entries of the tree below its root that it selects |
| RetentionScope.GoneIff | scripts/data-retention.ts:98 | after a run an entry is gone exactly when something at or above it is reported |
| RetentionWindow.KeptIsPrefix | scripts/data-retention.ts:160-166 | newest first, an entry goes exactly when it is more than maxAgeDays times 86,400,000 ms old or its position is maxEntries or more; what is kept is the first min(maxEntries, number within the age window) |
| RetentionDryRun.ReportedPaths | scripts/data-retention.ts:170-190 | in both modes the actions are the selected entries in order, each with the policy's id and its age in whole days of 86,400,000 ms |
| RetentionWindow.ApplySettles | scripts/data-retention.ts:145-190 | applying a policy again at the same time removes nothing, nested directories included |
| RetentionWindow.SecondRunDoesNothing | scripts/data-retention.ts:98 | running all policies again removes nothing and reports nothing |
| RetentionBytes.ReportedIsFreedIff | scripts/data-retention.ts:98-101 | with apply, reported bytes are at least the freed bytes, and equal exactly when no nonempty file is removed after something at or above it |
| RetentionBytes.MixedPolicyCountsTwice | scripts/data-retention.ts:170-190 | a policy selecting files and directories, and a tree, for which ten bytes are reported and five are freed |
| RetentionBytes.ScanConserves | scripts/data-retention.ts:145-190 | a policy that selects only files or only directories reports exactly what it frees |
| RetentionBytes.RunConserves | scripts/data-retention.ts:98-101 | removedBytes of a whole run is the tree's size before minus after |
| RetentionDryRun.SamePathsInBothModes | scripts/data-retention.ts:145-190 | for one policy and tree both modes report the same paths in the same order |
| RetentionDryRun.DryRunBounds | scripts/data-retention.ts:145-190 | the dry-run total is at least the apply total, and equal exactly when no selected directory shares bytes with an entry selected before it |
| RetentionDryRun.NoNestingSameBytes | scripts/data-retention.ts:145-190 | the totals are equal when no reported directory contains another reported entry |
| RetentionDryRun.DryRunAnnouncesRun | scripts/data-retention.ts:98-102 | for every list of policies: when the dry run succeeds so does the run with apply, what that removes was announced in the same order, and reclaimableBytes is at least removedBytes |
| RetentionPolicies.PoliciesAreOfOneKind | scripts/data-retention.ts:27-96 | every listed policy selects only files or only directories |
| RetentionPolicies.RunOfTheScript | scripts/data-retention.ts:98-102 | conservation and an idle second run for the eight listed policies on every tree |
| RetentionPolicies.DryRunOfTheScript | scripts/data-retention.ts:98-102 | for the eight listed policies the dry run announces everything that is freed |
| RetentionPolicies.ScriptStaysInScope | scripts/data-retention.ts:27-98 | in both modes everything reported lies in the place and has the kind, name and, where entries are not counted, the age in days of one of the eight policies, and nothing is gone that is not at or below something reported |
| RetentionPolicies.EssentialBackupsStay | scripts/data-retention.ts:27-98 | the five newest zip and JSON backups survive the whole run unless they are more than 14 days old |
| RetentionPolicies.NothingOverdueStays | scripts/data-retention.ts:27-98 | after a run with apply nothing that a policy selects, by its place, kind and name, is older than the policy's days, and no more counted entries are left than counted |
| RetentionPolicies.PolicyMatches | scripts/data-retention.ts:27-96 | each of the eight policies selects below its root exactly the entries of the listed kind and name, with the listed id, days and count |
| MarkdownHtml.HtmlEscaped | scripts/ios-app-review-notes-pdf.swift:11-29 | the loop computes the escaped text |
| MarkdownHtml.EscapeIsPerChar | scripts/ios-app-review-notes-pdf.swift:15-26 | four characters are replaced, each by its entity, and all others are kept |
| MarkdownHtml.EscapeIsInvertible | scripts/ios-app-review-notes-pdf.swift:11-29 | decoding the escaped text gives the text, for every text |
| MarkdownHtml.InlineIsFaithful | scripts/ios-app-review-notes-pdf.swift:31-41 | with any number of backticks the tags nest and close, and the visible text is the line without its backticks |
| MarkdownHtml.ClosedCode | scripts/ios-app-review-notes-pdf.swift:38-40 | what stands between the first two backticks, and only that, is code, and the rest is rendered on its own |
| MarkdownHtml.UnclosedCode | scripts/ios-app-review-notes-pdf.swift:38-40 | after a backtick without a partner everything is code and the tag is closed |
| MarkdownHtml.NoTicks | scripts/ios-app-review-notes-pdf.swift:34-36 | a line without backticks is only escaped |
| MarkdownBlocks.Converter.FlushParagraph | scripts/ios-app-review-notes-pdf.swift:60-67 | a nonempty paragraph buffer becomes one block and resets the list flag |
| MarkdownBlocks.Converter.FlushCodeBlock | scripts/ios-app-review-notes-pdf.swift:69-76 | a nonempty code buffer becomes one block |
| MarkdownBlocks.Converter.CodeLine | scripts/ios-app-review-notes-pdf.swift:85-100 | a line inside code keeps the run invariants and the final result |
| MarkdownBlocks.Converter.TextLine | scripts/ios-app-review-notes-pdf.swift:85-151 | a line outside code keeps the run invariants (a list item before means an empty paragraph, and so on) and the final result |
| MarkdownBlocks.MarkdownToHtmlBody | scripts/ios-app-review-notes-pdf.swift:53-157 | the buffering machine produces the blocks, over the lines that LinesIff states, of a grammar that looks ahead and has no buffers |
| MarkdownLines.LinesIff | scripts/ios-app-review-notes-pdf.swift:82 | the lines are the one way to write the document as texts without newline characters with one newline character between neighbours |
| MarkdownLines.TrimBlanksIff | scripts/ios-app-review-notes-pdf.swift:83 | the raw line is blanks, its text and blanks, and the text has no blank at its ends |
| MarkdownText.TitleHtml | scripts/ios-app-review-notes-pdf.swift:110-118 | the HTML of a heading: two spacers before the second level, a rule of 85 characters after the first two |
| MarkdownText.ItemHtml | scripts/ios-app-review-notes-pdf.swift:122-140 | the HTML of a numbered and of a bulleted item |
| MarkdownText.TextHtml | scripts/ios-app-review-notes-pdf.swift:64-73 | the HTML of a paragraph, of code and of a list continuation |
| MarkdownText.BlocksKeepText | scripts/ios-app-review-notes-pdf.swift:82-157 | the blocks hold what each line contributes, once and in source order, from any state outside code |
| MarkdownText.DocumentKeepsText | scripts/ios-app-review-notes-pdf.swift:82-157 | the blocks of a document hold what its lines contribute, lines in fences as code; LinesIff and ClassifyIff say what these are |
| MarkdownLines.ClassifyIff | scripts/ios-app-review-notes-pdf.swift:78-146 | a line is a fence, empty, a heading, an item or plain exactly when its text has that form: marker, blanks and text, with one to six "#", digits and ".", or "-"; nothing else is dropped |
| MarkdownText.PageShowsDocument | scripts/ios-app-review-notes-pdf.swift:53-159 | for every document the tags of the body nest and reading it gives the text of the blocks, entry by entry |
| MarkdownText.PageKeepsText | scripts/ios-app-review-notes-pdf.swift:53-159 | for every document: it is its lines with newline characters between them, and reading the HTML body gives the text of every line that is neither blank nor a fence, letter by letter, exactly once and in source order, with only blanks, line breaks and the heading rule around it |
| MarkdownText.TellsIff | scripts/ios-app-review-notes-pdf.swift:82-146 | which texts the lines of a document have, fence by fence, is determined and is what the converter's lines contribute |
| CatchPatterns.RestIsMatch | scripts/fix-empty-catch-blocks.js:22-26 | for each pattern a backtracking engine finds what the deterministic scan finds, and stops where it stops |
| CatchText.RestIff | scripts/fix-empty-catch-blocks.js:22-26 | each pattern matches at the start of a text exactly when the text starts with its words, brackets and, for the second, a name, with any white space between them |
| CatchRewriter.ReplaceAll | scripts/fix-empty-catch-blocks.js:139-163 | the global replacement and the number of its matches |
| CatchRewriter.CountEmptyCatches | scripts/fix-empty-catch-blocks.js:63-79 | the sum of the matches of the three patterns |
| CatchRewriter.FixEmptyCatches | scripts/fix-empty-catch-blocks.js:134-177 | the three passes in order, the total and the inserted import |
| CatchFixpoint.RewriteRemoves | scripts/fix-empty-catch-blocks.js:138-163 | a pass leaves no match of its own pattern, not even across its replacements |
| CatchFixpoint.RewriteKeepsCount | scripts/fix-empty-catch-blocks.js:138-163 | a pass neither adds nor removes matches of another pattern |
| CatchFixpoint.RestRewrite | scripts/fix-empty-catch-blocks.js:138-163 | outside its matches a pass changes nothing that any pattern looks at |
| CatchFixpoint.RewriteAllFixesAll | scripts/fix-empty-catch-blocks.js:134-163 | fixedCount is the count of the original text, and nothing is left to count |
| CatchImport.InsertKeepsZero | scripts/fix-empty-catch-blocks.js:166-174 | inserting the import line anywhere in a text without matches makes none |
| CatchImport.FixReachesFixpoint | scripts/fix-empty-catch-blocks.js:134-177 | counter and rewriter agree, the output with its import has no match of any pattern, and a second pass changes nothing |
| CatchOnePass.PassesAreOne | scripts/fix-empty-catch-blocks.js:138-163 | the three passes in a row give what one pass over the original text gives that replaces every match of the three patterns |
| CatchPlacement.OccursIffKept | scripts/fix-empty-catch-blocks.js:138-163 | a line break or an import text occurs in the rewritten text exactly when it starts outside all matches of the original text |
| CatchPlacement.ImportInsertedIff | scripts/fix-empty-catch-blocks.js:166-174 | the logger import is inserted exactly when something is fixed and, outside matches, the file has an import and none of the logger |
| CatchPlacement.ImportPlacement | scripts/fix-empty-catch-blocks.js:166-174 | for every file that gets it: it goes, as a whole line, after the line of the last import outside matches exactly when a line break from there on lies in no match, and to the very start otherwise |
| CatchPlacement.EndedFileIsSafe | scripts/fix-empty-catch-blocks.js:166-174 | a file that ends its last line gets it after the line of its last import |
| CatchPlacement.UnendedImportComesSecond | scripts/fix-empty-catch-blocks.js:134-177 | what becomes of `import a;catch{}`, with any white space between the braces: the logger import stands first |
| CatchText.ReplacementText | scripts/fix-empty-catch-blocks.js:138-163 | the replacement of each pattern letter by letter; that of the second names, twice, the variable that the match spells |
| CatchText.VariableIff | scripts/fix-empty-catch-blocks.js:148-153 | the captured variable is the name between the parentheses |
| WindowsArgs.CommandLineDecodes | scripts/distribution-policy.ts:91 | the argument list can be recovered from the joined command line, for all arguments |
| WindowsArgs.CommandLineIsInjective | scripts/distribution-policy.ts:116-126 | different argument lists give different command lines |
| WindowsText.StaysBareIff | scripts/distribution-policy.ts:116-126 | an argument stays bare exactly when it is not empty and has no white space and none of ten special characters, else it is quoted |
| WindowsText.CaretIsPerChar | scripts/distribution-policy.ts:124 | between the quotes exactly these ten characters get a caret and all others are kept |
| WindowsArgs.NormalizeQuoted | scripts/install-core.ts:13-19 | what normalizing makes of any quoted value: carets and one closing quote are lost |
| WindowsArgs.NormalizeUndoesQuoteIff | scripts/install-core.ts:13-19 | the value survives exactly when it has no caret and does not end with a double quote |
| WindowsArgs.CaretAndQuoteAreLost | scripts/install-core.ts:13-19 | two values that do not survive |
| WindowsText.NormalizeMeans | scripts/install-core.ts:13-19 | for every text: white space comes off the ends, then carets, then quotes, then every caret that is left |
| WindowsText.WithoutIsPerChar | scripts/install-core.ts:18 | the last step takes out every caret and nothing else |
| WindowsArgs.ReadOptionValue | scripts/install-core.ts:21-37 | the tokens up to the next option, joined and normalized, and where they end |
| WindowsText.IsOptionIff | scripts/install-core.ts:26 | a token is an option exactly when it starts with two dashes after any white space |
| PinVersionArgs.VersionCodeAccepted | scripts/android-pin-version.ts:43-53 | a code is accepted, as n, exactly when it is up to white space the decimal text of an n from 1 to 2^53 - 1 |
| PinVersionArgs.ParseArgs | scripts/android-pin-version.ts:55-110 | the loop returns the options, the help exit or the first error |
| PinVersionArgs.ParsedIsValid | scripts/android-pin-version.ts:101-109 | success means exactly one version source, a version with text in it, a code in range and a resolved root |
| PinVersionArgs.ParsedIffGroups | scripts/android-pin-version.ts:55-110 | parsing succeeds with given options exactly when the tokens are a list of option groups, each token in one group, that say these options |
| PinVersionOutcomes.AppliedIsSaid | scripts/android-pin-version.ts:56-89 | what accepted groups say: the last group of each flag decides, else the default stays |
| PinVersionOutcomes.HelpIff | scripts/android-pin-version.ts:90-94 | help is given exactly when the first token that starts no accepted group asks for it |
| PinVersionOutcomes.FailedIff | scripts/android-pin-version.ts:43-118 | each error is thrown exactly when the first token that starts no accepted group is an unknown argument, an option without a value or with a bad code, or when all groups are accepted and name no source, two, or a blank version |
| PinVersionArgs.GroupsAreUnique | scripts/android-pin-version.ts:55-99 | the tokens split into groups in one way only |
| PinVersionArgs.OrderDoesNotMatter | scripts/android-pin-version.ts:55-110 | groups with different flags give the same result in any order |
| PinVersionArgs.ParseInvertsPrint | scripts/android-pin-version.ts:55-118 | every valid record whose root is its own resolution is what its printed groups parse to, in any order |
| EnvFiles.Environment.LoadFirstWins | scripts/measure-context-pipeline-tokens.ts:20-40 | for every variable: a nonempty value from before, else the first nonempty one assigned, else an empty one if assigned; LinesIff and EntryIff say what is assigned |
| EnvFiles.Environment.LoadLastWins | scripts/apply-cost-stack-preferences.ts:14-31 | for every variable: the last value assigned, else what was there; LinesIff and EntryIff say what is assigned |
| EnvLines.LinesIff | scripts/measure-context-pipeline-tokens.ts:23 | the lines are the one way to take the text apart at line feeds, each with the carriage return before it |
| EnvLines.EntryIff | scripts/measure-context-pipeline-tokens.ts:24-35 | a line assigns v to k exactly when it is k, "=" and a written value with any white space around each, k is nonempty, without "=" and not starting with "#", and the written value is v, or v between equal quotes, or a lone quote and v is empty |
| EnvFiles.ChoicesAgreeIff | scripts/apply-cost-stack-preferences.ts:14-31 | the loaders agree on a variable exactly when it is not assigned, or its last value is the first nonempty one it ever had, or it never had one |
| EnvFiles.LoadersAgreeIff | scripts/apply-cost-stack-preferences.ts:14-31 | the loaders leave the same environment exactly when that holds of every variable |
| EnvFiles.FreshDistinctKeysAgree | scripts/measure-context-pipeline-tokens.ts:20-40 | whatever else is in the environment, they do for every file that assigns no variable twice and none that had a nonempty value |
| EnvFiles.PrintedEntryReadsBackIff | scripts/measure-context-pipeline-tokens.ts:24-35 | a line KEY="value" reads back as that key and value exactly for keys that are nonempty, trimmed, without "=" and not starting with "#", whatever the value |
| EnvFiles.PrintedFileReadsBack | scripts/measure-context-pipeline-tokens.ts:23-39 | a printed file assigns each key its printed values in order, repeated keys included, and nothing else |
| EnvFiles.ReadsBackIff | scripts/measure-context-pipeline-tokens.ts:23-39 | it does so for all keys exactly when every key is nonempty, trimmed, without "=" and not starting with "#", and no key or value holds a line break |
| EnvFiles.BothReadPrintedFile | scripts/measure-context-pipeline-tokens.ts:23-39 | with distinct keys that had no value both loaders read it back as printed |
| Containment.RelativeTestMeans | scripts/mcp-fixture-server.ts:38-39 | the relative check holds exactly for the directory and what is below it, but not through a name that starts with ".." |
| Containment.PrefixTestMeans | scripts/mcp-fixture-server.ts:44 | the prefix check on texts holds exactly for the directory and what is below it, except below "/" |
| Containment.SandboxIsBelowTmp | scripts/mcp-fixture-server.ts:21-27 | the sandbox is the named directory below the temporary one, wherever that is |
| Containment.SandboxAccepts | scripts/mcp-fixture-server.ts:26-46 | exactly which paths the sandbox accepts, for every temporary directory and every input text with "." and ".." |
| PathResolution.ResolveSatisfies | scripts/mcp-fixture-server.ts:27-33 | resolving: "" and "." stay, ".." goes up but not above the root, a name goes down, a leading slash starts at the root, and p/q is q after p |
| PathResolution.ResolveIsDetermined | scripts/mcp-fixture-server.ts:27-33 | nothing else satisfies these laws, for any directory and text |
| PathResolution.RelativeLeadsBack | scripts/mcp-fixture-server.ts:38 | following the relative path from one resolved directory to another leads there |
| PathResolution.SiblingsAreRefused | scripts/mcp-fixture-server.ts:33-40 | no name next to the sandbox is accepted through "..", for every working and temporary directory |
| Containment.PrefixCheckIsRedundant | scripts/mcp-fixture-server.ts:38-46 | the second check never fails after the first, for every temporary directory and input |
| Containment.PrefixTestFailsIff | scripts/mcp-fixture-server.ts:38-46 | for directories in general it could fail only for a path below "/" |
| Containment.TestsDifferIff | scripts/mcp-fixture-server.ts:38-46 | for any directory but "/" the checks differ exactly on a first inner name that starts with ".." |
| Containment.DottedNameIsRefused | scripts/mcp-fixture-server.ts:38-46 | a file of the sandbox that only the first check refuses |
| Containment.IsInsideMeans | scripts/distribution-hardening.ts:266-271 | the target's segments extend the root's, but not through such a name |

## Left out

- SamePathsInBothModes: compares one policy on one tree; over several policies a dry run shows later policies entries that a real run has already removed, so there DryRunAnnouncesRun promises a subsequence.
- File discovery, import extraction and resolution of the import graph (its regular expression is illegible in the source text), and the console and JSON output of the report.
- JSON numbers are tokens; their conversion to floating point, the merging of equal object keys and the reordering of integer-like keys are not modelled. Strings are sequences of code points, so an escaped surrogate pair is two elements.
- Texts are sequences of Unicode scalars: grapheme clusters and canonical equivalence in Swift, and lone surrogates in JavaScript texts, are not modelled. The digits of a list number are ASCII.
- The file system is a finite tree with sizes and modification times: no symbolic links, hard links, races or permission errors, and removing an entry does not touch the modification time of its directory. The current time is fixed.
- `formatBytes`, dates and console formatting of the retention report.
- The constant HTML page around the body, its style sheet, the PDF layout and all file reading and writing.
- The directory scan, the report table and the writing of files around the empty-catch rewriter.
- `parseArgs` of `scripts/install-core.ts`, which only stores the values that `ReadOptionValue` returns, and everything behind it in `src/`.
- `path.resolve` is a parameter of the version script's parser; `pinAndroidVersion` and its library are not part of this model.
- Whether an `.env` file exists, and case-insensitive environment names on Windows.
- Symbolic links, the creation of the sandbox directory and Windows drive rules in the containment checks.
- The wrappers over `src/services`, `src/core` and `src/runtime`, the dashboard and browser scripts, servers and child processes.

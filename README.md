# ProcedureGenerator core, modelled in Dafny

ProcedureGenerator turns a small text language into a multi-step interactive procedure.

**The language.**
- Steps are separated by `---`.
- Plain lines are text.
- `Q: prompt [name]` and `Q: prompt [name] (One of: a, b)` ask questions.
- `{` … `}` is JavaScript that computes variables.
- `{showif expr}` … `}` shows its body only when `expr` holds.
- `[warning_style] …` and similar tags produce styled callouts.
- `{end}` marks the end.
- `[name]` at the end of a line declares a variable.
- `[name] const: value` defines a macro that `{const name}` expands.

**What the project models.**
- The compiler: the line classifier, the brace scanner `findBlockEnd`, the declaration extractor and the rewrite of `if` conditions of codeExecution.js, and the question, marker and macro readers. It also covers the block parser `parseSection`/`createShowif` in both versions the repository carries: src/parser.js, and the older parser.js with text buffering and `{end}` halting.
- The runtime of the generated page, from src/downloadPage.js and src/initialize.js:
  - cutting the parsed blocks into steps;
  - answers written into the variables;
  - the `{name}` interpolation from cached originals;
  - conditional display;
  - code blocks re-run on every step change; on a generated page their texts are only `""` or `"undefined"`, so the re-runs change no variable;
  - Back/Next navigation over the `visitedSteps` stack with its repeat-step gate.

**Module layout.** One module per concern:

| module | file | contents |
|---|---|---|
| `JsStrings` | js_strings.dfy | the JavaScript string built-ins the code relies on: `trim`, `split`, `join`, the regular-expression classes `\s`, `\w` and `.` |
| `Seqs` | seqs.dfy | generic `filter` and `map` |
| `Variables` | variables.dfy | the variables object: a map from names to `Undefined`, `Null`, a string or another value |
| `Steps` | steps.dfy | `splitSteps`, `joinToString`, `joinToArray` |
| `VariableMarkers` | markers.dfy | `variableReader` |
| `ConstMacros` | consts.dfy | `constVariableReader`, `replaceConstVars` |
| `Declarations` | declarations.dfy | `extractVariablesAndCleanCode` |
| `IfRewrite` | if_rewrite.dfy | `makeIfstatements` |
| `Questions` | questions.dfy | `questionParsing` |
| `CodeRunner` | code_runner.dfy | `runUserCode` over an evaluator oracle |
| `ScopeMatcher` | scope_matcher.dfy | `findBlockEnd` |
| `Classifier` | classifier.dfy | `classifyLine` of both versions, and the header rewrite of `createShowif` |
| `Blocks` | blocks.dfy | the block datatype, `appendText` of both versions, and styled lines |
| `BlockParser` | block_parser.dfy | the reference definition of `parseSection`, `createShowif` and `parser` as functions |
| `StepParser` | step_parser.dfy | the same algorithms as methods over an `array<string>` step, proved to compute what `BlockParser` says |
| `EndStepText` | end_step.dfy | the sample step `{showif x`, `{end}`, `}` and what the classifier and the scanner read on its lines |
| `ParserFacts` | parser_facts.dfy | properties of the parser |
| `StepAssembly` | step_assembly.dfy | the two step partitions |
| `Interpolation` and `InlineVariables` | interpolation.dfy | `checkForCodeInLine` and `updateInlineVariables` |
| `PageRuntime` | page_runtime.dfy | answers, `evaluateExpression`, `executeShowIf`, `executeCodeBlocks` |
| `Navigation` | navigation.dfy | the `visitedSteps` navigator class and the repeat-step gate |

**How regular expressions are modelled.** Each one is written out as the backtracking search JavaScript performs: greedy runs that give characters back, lazy runs, `^` and `$` under the `m` flag, and `g` scans that resume after each match. The lemmas then state what the search finds on the inputs that matter.

**Behaviours of the code a reader may not expect:**
- `{end}` does not stop the parse everywhere.
  - In src/parser.js it only adds an end marker; the `end` flag is never set.
  - In parser.js it ends the current step. `parser` stops at that step. Inside a conditional, the -1 it produces is lost (see Findings).
- The page's `evaluateExpression` returns false for every evaluation error, not only for unknown names.
- `checkForCodeInLine` tests `!= null`, which excludes both `null` and `undefined`.
- The page's code blocks never hold the code that was written. `runUserCode` returns nothing, so a top-level code block shows `""` (`textContent` of `undefined`) and one inside a conditional shows `"undefined"` (`innerHTML` of `undefined`). When the repeat-step gate fails, the step's code blocks run again, and running `undefined` changes no variable.
- A constant definition with nothing after `const:` takes the next line as its value, because `\s*` runs over the line feed. So `[a] const:` followed by the line `[b] const: v` defines `a` as `[b] const: v`, and `b` is not defined (`ConstMacros.EmptyValueTakesNextLine`).
- No line category for a repeat-step header exists in either `classifyLine`.

## Model

| member | source | states |
|---|---|---|
| JsStrings.TrimIsInfix | src/parser.js:134 | `trim` removes only a run of white space at each end; what remains is a contiguous piece of the line |
| JsStrings.TrimIdempotent | src/parser.js:134 | trimming a trimmed line changes nothing |
| JsStrings.SplitCount | src/parser.js:38 | `split` gives one piece more than the separator occurrences found left to right |
| JsStrings.SplitPiecesAvoidSeparator | src/parser.js:38 | no piece of a `split` contains the separator |
| JsStrings.JoinSplit | codeExecution.js:71 | joining the pieces of a `split` with the same separator gives the text back |
| JsStrings.SplitJoin | src/parser.js:497-499 | splitting a join at a one-character separator the pieces lack gives the pieces back |
| Steps.StepCount | src/parser.js:35-44 | `splitSteps` cuts at every `---`, even mid-line: one step more than there are `---` |
| Steps.StepAvoidsDashes | src/parser.js:38-42 | no trimmed step contains `---` |
| Steps.StepLinesAreNotSeparators | src/parser.js:35-44 | no line of a step is classified as a separator by either `classifyLine`, so the separator branches are unreachable from `splitSteps` output |
| Steps.JoinToArray | src/parser.js:501-503 | `slice(start, end + 1)`: element k is line start+k, with exactly end-start+1 lines when the range is inside the step, clamped otherwise |
| Steps.CodeLinesRoundTrip | src/parser.js:497-499 | splitting `joinToString` at line feeds gives `joinToArray` back, as the declaration extractor needs |
| VariableMarkers.MarkerTailEnd | src/parser.js:20 | the tail after the name, an optional `(type)` and spaces, ends where `$` holds, and it matches whenever `$` holds right after the name |
| VariableMarkers.VariableReader | src/parser.js:19-33 | the names afterwards are the old ones plus every marker found; each marker name becomes `""`, overwriting its value; every other variable is unchanged |
| VariableMarkers.MarkersAreNames | src/parser.js:20-26 | every name read is an identifier `[a-z_][a-z0-9_]*` that occurs in brackets in the text |
| VariableMarkers.MarkerAtLineEnd | src/parser.js:20 | a `[name]` that ends its line is found, provided no earlier `[` starts a match |
| VariableMarkers.MarkerWithType | src/parser.js:20 | `[name] (type)` at the end of the text declares `name` |
| VariableMarkers.TextAfterMarker | src/parser.js:20 | a bracketed name followed by more text on its line, `[x] y`, declares nothing |
| ConstMacros.ConstVariableReader | src/parser.js:88-103 | the `exec` loop, resuming each search at the end of the previous match, computes the definition map; a later definition of a name replaces an earlier one |
| ConstMacros.ConstsAreTrimmed | src/parser.js:91-99 | every constant collected has an identifier name and a trimmed value |
| ConstMacros.DefinitionCollected | src/parser.js:91-99 | `[name] const: value` yields exactly `{name: trim(value)}` |
| ConstMacros.TwoDefinitions | src/parser.js:92-99 | two definition lines in a row both land in the map, and when they name the same constant the second value replaces the first |
| ConstMacros.EmptyValueTakesNextLine | src/parser.js:92-97 | `[name] const:` with nothing after it takes the whole next line as its value, because `\s*` runs over the line feed; that line is not read as a definition of its own |
| ConstMacros.NoMacroUnchanged | src/parser.js:148-161 | a text without `{` comes out of `replaceConstVars` unchanged |
| ConstMacros.UnknownMacrosKept | src/parser.js:155-158 | with no constants defined, every `{const name}` stays verbatim |
| ConstMacros.MacroReplaced | src/parser.js:149-154 | a use of a known constant is replaced by its value, and the text around it is kept |
| Declarations.IdentifierAt | codeExecution.js:69 | the identifier read is maximal: the next character cannot continue it |
| Declarations.DeclAt | codeExecution.js:69 | a declaration the pattern matches always names an identifier |
| Declarations.RecordDeclarations | codeExecution.js:73-84 | the first loop blanks exactly the declaration lines in place and records their variables in order |
| Declarations.ExtractVariablesAndCleanCode | codeExecution.js:67-101 | the variables after the call are those of the declarations in order; the cleaned code is the non-blank, non-declaration lines joined by line feeds, with `if` conditions then forced by `makeIfstatements` as written when `wholeParsing` is set |
| Declarations.BlankedKept | codeExecution.js:80-86 | a blanked line survives the `trim() !== ""` filter exactly when it was neither a declaration nor blank |
| Declarations.FilterBlanked | codeExecution.js:86 | filtering the blanked lines is filtering the original lines by "kept" |
| Declarations.InitializedDeclaration | codeExecution.js:69-79 | round trip: `var/let/const name = value;` is read back as `name` with the trimmed initializer `value` |
| Declarations.BareDeclaration | codeExecution.js:69-79 | round trip: `var/let/const name;` declares `name` as undefined |
| Declarations.NoLaterStart | codeExecution.js:69 | in a single line, `^` holds only at the start, so no match begins later |
| Declarations.NoKeywordNoDeclaration | codeExecution.js:74-75 | a line that does not begin, after its indentation, with `var`, `let` or `const` is not a declaration |
| Declarations.RecordAllKeys | codeExecution.js:73-84 | the variables afterwards are those before plus every declared name; none is removed |
| Declarations.UndeclaredUnchanged | codeExecution.js:73-84 | a variable no line declares keeps its presence and its value |
| Declarations.LastDeclarationWins | codeExecution.js:79 | when a name is declared several times, the last declaration gives its value |
| Declarations.CleanCodeIdentity | codeExecution.js:86 | code without declarations or blank lines comes out exactly as it went in |
| IfRewrite.IfMatchLength | codeExecution.js:147 | a match starts with `if`, ends with `)`, and contains no `)` between its `(` and that end |
| IfRewrite.NoIfUnchanged | codeExecution.js:144-156 | code that never spells `if` is left unchanged |
| IfRewrite.FlatConditionForced | codeExecution.js:147-151 | `if (cond)` with a condition without parentheses becomes `if (true)`, and the scan goes on after it |
| IfRewrite.NestedCallLeavesParenthesis | codeExecution.js:147-151 | as written, `if (f(x)) y` becomes `if (true)) y` |
| IfRewrite.MatchingCloseShift | codeExecution.js:147 | the matching-parenthesis search of the corrected rewrite only looks ahead: a prefix shifts its result and nothing else |
| IfRewrite.BalancedConditionForced | codeExecution.js:144-156 | the corrected rewrite replaces a balanced condition, calls included, by `true` as a whole |
| IfRewrite.NestedCallIntended | codeExecution.js:144-156 | with the corrected rewrite, `if (f(x)) y` becomes `if (true) y` |
| IfRewrite.FlatConditionsAgree | codeExecution.js:144-156 | on conditions without nested parentheses, the corrected rewrite agrees with the source's |
| Questions.ParseQuestionWith | src/parser.js:46-86 | a question is emitted only for a name the variables object accepts |
| Questions.NoBracketThrows | src/parser.js:70-73 | a `Q:` line with no `[` makes `match` null, and the parse throws |
| Questions.NotChoiceLine | src/parser.js:47-50 | only a line ending in `)` passes the multiple-choice test |
| Questions.InputQuestion | src/parser.js:69-83 | `Q: prompt [name]` asks for `name` with the default type `text`, and the prompt keeps its trailing space |
| Questions.ChoiceQuestion | src/parser.js:47-68 | `Q: prompt [name] (One of: a, b)` asks for `name` with the options split at commas and trimmed |
| Questions.InheritedNameAsked | src/parser.js:56-75 | as written, `Q: Name [constructor]` asks a question on an empty variables object |
| Questions.InheritedNameIgnored | src/parser.js:56-75 | with own keys only, the same line asks nothing |
| CodeRunner.RunUserCode | codeExecution.js:158-172 | the code's declarations are recorded first; the evaluator receives the cleaned code after `makeIfstatements` as written, and the result is an error exactly when it throws; otherwise each variable takes the value the evaluator returns for it (`Object.assign`), the others keep their declared values, and the names are the old ones plus the declared ones |
| CodeRunner.NestedCallSentAsWritten | codeExecution.js:159 | the block `if (f(x)) y` reaches `new Function` as `if (true)) y` |
| CodeRunner.CopyBack | codeExecution.js:171 | `Object.assign` gives every variable the value returned for it and keeps the rest; no name is added |
| CodeRunner.IdleCodeDeclares | codeExecution.js:158-172 | when the evaluator changes nothing, the variables afterwards are exactly those the declarations leave |
| ScopeMatcher.QuoteStep | codeExecution.js:33-49 | a quote opens a string only after a non-word character; the remembered quote closes it; the brace state is untouched |
| ScopeMatcher.CloserFrom | codeExecution.js:22-31 | the block-comment skip stops at the first `*/` on the line, or at the end |
| ScopeMatcher.ScanChars | codeExecution.js:14-61 | the scan of one line keeps the scanner state valid (depth 0 before the first `{`, at least 1 after it) and closes only on a `}` |
| ScopeMatcher.ScanLines | codeExecution.js:10-64 | a result is an index of a line holding `}` at or after the start; running out of lines is the thrown "Unmatched closing brace" |
| ScopeMatcher.BlockEnd | codeExecution.js:4-65 | the line found is at or after `startIndex` and holds a `}` |
| ScopeMatcher.FindBlockEnd | codeExecution.js:4-65 | the nested loops over lines and characters compute `BlockEnd`, carrying brace depth, string state and quote across lines |
| ScopeMatcher.ScanLine | codeExecution.js:14-61 | the inner character loop computes the line's outcome from the state the earlier lines left |
| ScopeMatcher.SkipBlockComment | codeExecution.js:24-28 | the comment-skipping loop ends just after the first closer on the line |
| ScopeMatcher.NeutralKeepsState | codeExecution.js:14-61 | a line without braces, quotes or slashes leaves the scanner state exactly as it was |
| ScopeMatcher.NoCloserMeansUnmatched | codeExecution.js:64 | without a `}` on any remaining line, the scan throws |
| ScopeMatcher.ClosingBeforeOpeningIgnored | codeExecution.js:52-58 | before the first `{`, a `}` is ignored: depth stays 0 and never goes negative |
| ScopeMatcher.StringHidesBraces | codeExecution.js:33-49 | inside a string, braces are not counted and the string stays open into the next line |
| ScopeMatcher.LineCommentEndsScan | codeExecution.js:18-20 | `//` ends the scan of the line, even inside a string literal |
| ScopeMatcher.CodeBlockEnd | codeExecution.js:4-65 | for `{`, neutral lines and `}`, the result is the index of the `}` line |
| ScopeMatcher.SameLineHeader | codeExecution.js:4-65 | a header whose braces balance on its own line closes on that line |
| Classifier.StripShowif | src/parser.js:337-339 | the rewritten header keeps no `{` or `}` and is no longer than before |
| Classifier.ClassifyTrimmed | src/parser.js:133-146 | the category depends only on the trimmed line |
| Classifier.LegacyClassification | parser.js:125-134 | the older classifier is the newer one with styled lines counted as text |
| Classifier.QuestionFirst | src/parser.js:135 | a `Q:` line is a question whatever follows, in both versions |
| Classifier.EndPrefix | src/parser.js:138 | any line whose trimmed text starts with `{end}` is an end line |
| Classifier.SeparatorNeedsDashes | src/parser.js:139 | a line without `---` is never a separator |
| Classifier.StrippedHeaderOpensNothing | src/parser.js:337-339 | a rewritten header opens no code block, conditional or end, and closes no block |
| Classifier.StripDropsCount | src/parser.js:337-339 | rewriting a conditional's header removes exactly one conditional header from the step |
| Blocks.AppendText | src/parser.js:484-494 | a text block is emitted exactly when the flag is set or the trimmed text is empty; emitting returns `""`, otherwise the text is returned unchanged |
| Blocks.LegacyAppendText | parser.js:387-393 | the older version emits exactly when the flag is set |
| Blocks.AppendTextVersions | src/parser.js:484-494 | the versions differ only on a blank buffer with the flag down, which only the newer one turns into an empty paragraph |
| Blocks.FlushTwice | src/parser.js:484-494 | flushing an already-flushed buffer adds only an empty paragraph |
| Blocks.StyledParts | src/parser.js:229-233 | the style key is the tag in lower case and the text is the rest of the line after the spaces |
| Blocks.StyledHeaderSplits | src/parser.js:141-144 | every line the classifier calls styled splits into one of the four style keys and a text |
| Blocks.QuietTexts | src/parser.js:196-205 | a list of blocks, conditionals included, is quiet exactly when every code text it holds is `""` or `"undefined"` |
| BlockParser.ParseSteps | src/parser.js:107-131 | the steps are parsed into one container in order, and every code block the parser adds to it shows `""` (top level, src/parser.js:202) or `"undefined"` (inside a conditional, src/parser.js:389) |
| BlockParser.SourceEnv | src/parser.js:186-201 | the parser's code blocks run through `runUserCode` and its questions through `questionParsing` |
| BlockParser.ShowIfKind | src/parser.js:137 | both classifiers recognise the same conditional headers |
| BlockParser.RunCodeBlock | src/parser.js:190-206 | a code block runs up to the line where `findBlockEnd` closes it, and the cursor moves there; an unclosed block throws |
| BlockParser.CreateShowif | src/parser.js:327-482 | line `i` of the step becomes its header with `showif` and the braces deleted, and every other line is either kept or is a nested header rewritten the same way; the step keeps its length with one conditional header fewer; the cursor returned is at least -1 |
| BlockParser.ShowifTurn | src/parser.js:352-473 | a line that opens no nested conditional moves the cursor forward, or ends the conditional; an end without an error leaves the lines as they were and returns -1 |
| BlockParser.SectionLoop | src/parser.js:163-296 | the newer `parseSection` always runs to the end of the step; the older one returns 0 when it stops early; the only lines changed are conditional headers, rewritten |
| BlockParser.AfterShowifTurn | parser.js:198-210 | after a conditional, the step stops only when the -1 of a nested `{end}` is honoured |
| BlockParser.SectionTurn | parser.js:211-249 | a top-level line stops `parseSection` only for `{end}` in the older parser, which returns 0 |
| StepParser.CreateShowif | src/parser.js:327-482 | the recursive method over the `step` array computes `BlockParser.CreateShowif`, and the array ends up holding the rewritten lines |
| StepParser.ShowifRun | src/parser.js:352-481 | the conditional's loop over the array computes the reference loop |
| StepParser.CodeBlockAt | src/parser.js:377-393 | the code case of both loops over the array computes `RunCodeBlock` |
| StepParser.ParseSection | src/parser.js:163-296 | `parseSection` over the array computes the reference definition, and the array ends up holding the rewritten lines |
| StepParser.Parser | src/parser.js:107-131 | `parser` splits each step into lines, reads the constants of the whole text and parses the steps from `startIndex` into one container, stopping after the first step whose `parseSection` returns 0 (parser.js:105-115) |
| ParserFacts.TurnKeepsParent | src/parser.js:394-416 | one turn of a conditional's loop leaves the parent as it was, or, on `---`, appends the finished piece with the conditional's expression and a separator; the loop then goes on with a new piece with the same expression |
| ParserFacts.LoopExtendsParent | src/parser.js:352-481 | a conditional keeps the parent's earlier children in front and appends only pieces with its expression, with separators between them, ending with a piece |
| ParserFacts.ConditionalExtendsParent | src/parser.js:327-482 | the expression of every piece a conditional appends is its header without `showif` and braces, trimmed |
| ParserFacts.SameLineHeaderIsEmpty | src/parser.js:329-339 | a header closed on its own line gives an empty conditional (one empty paragraph in the newer parser), and the cursor stays on the header |
| ParserFacts.EndInConditional | parser.js:362-371 | in the older parser `{end}` inside a conditional adds the end text, attaches the conditional and returns -1; the newer one adds an end marker and goes on |
| ParserFacts.EndAtTopLevel | parser.js:211-220 | in the older parser a top-level `{end}` flushes the text, adds the end text and returns 0; the newer one adds a marker and goes on |
| ParserFacts.LegacyReparsesFromTop | parser.js:204-207 | as written, a -1 from a conditional becomes cursor 0, and the step is parsed again from its first line |
| ParserFacts.HaltingEndsStep | parser.js:204-207 | with the -1 honoured, the step ends after the conditional, and `parseSection` returns 0 |
| ParserFacts.LegacyEndStepRepeats | parser.js:198-249 | as written, the step `{showif x`, `{end}`, `}` gives the conditional with the end text, the extra empty container, then a paragraph `x` made from the rewritten header, the end text again and an empty paragraph |
| ParserFacts.HaltingEndStepStops | parser.js:198-249 | with the -1 honoured, the same step gives only the conditional with the end text and the extra empty container |
| ParserFacts.BodyTextTurn | src/parser.js:464-469 | inside a conditional, a text line equal after trimming to `}` or to the expression (as the rewritten header is) adds nothing; any other is buffered with a line feed and raises the flag |
| ParserFacts.TextRunBuffered | parser.js:235-241 | in the older parser, consecutive top-level text lines add no block: each, trimmed and with its constants substituted, is appended to the buffer with a line feed |
| ParserFacts.TextRunAtStepEnd | parser.js:248 | a run of text lines that ends the step becomes exactly one paragraph, the trimmed buffer |
| ParserFacts.TextRunThenQuestion | parser.js:168-176 | a run of text lines followed by a question becomes one paragraph, then the question |
| ParserFacts.TextRunThenEnd | parser.js:211-220 | a run of text lines followed by `{end}` becomes one paragraph, the end text, and an empty paragraph from the final flush, the flag still being up |
| ParserFacts.CurrentParsesEveryStep | src/parser.js:113-123 | the newer parser never stops early on non-empty steps |
| ParserFacts.CurrentParserNeverHalts | src/parser.js:107-131 | since `split` never gives an empty list, the newer `parser` parses every step and never adds the final Back button |
| StepAssembly.WrapStep | src/downloadPage.js:26-48 | the step is numbered with its index and carries the repeat condition exactly when the condition map has that index; the step's elements are followed by exactly one nav-buttons container |
| StepAssembly.WrapAll | src/downloadPage.js:55-70 | step j wraps group j with number j |
| StepAssembly.Groups | src/downloadPage.js:62-70 | there is one more group than there are separators, and no group holds a separator |
| StepAssembly.FlushStep | src/downloadPage.js:55-60 | an empty group makes no step; otherwise it is wrapped with the next number and emptied |
| StepAssembly.DownloadSteps | src/downloadPage.js:50-70 | the download page's steps are the non-empty groups, numbered from 0 |
| StepAssembly.Flush | src/initialize.js:182-206 | `flush` wraps the group with the next number even when it is empty |
| StepAssembly.AppendParsedSteps | src/initialize.js:178-217 | every separator closes a step, and the last group becomes a step only when it is not empty |
| StepAssembly.WrapStepCodes | src/downloadPage.js:393 | the `div.code` elements of a wrapped step are the code blocks of its group, in document order; the nav buttons hold none |
| StepAssembly.GroupsQuiet | src/downloadPage.js:62-70 | cutting quiet blocks at separators gives quiet groups |
| StepAssembly.QuietSteps | src/downloadPage.js:385-405 | on both pages built from quiet blocks, every code text of every step is `""` or `"undefined"` |
| StepAssembly.ShowFirstStep | src/initialize.js:151-155 | after rendering, only `step0` is displayed |
| StepAssembly.GroupsKeepContent | src/initialize.js:208-214 | cutting at separators loses only the separators and keeps the order |
| StepAssembly.DownloadStepsShape | src/downloadPage.js:55-70 | no download-page step is empty, and the steps' elements are exactly the non-separator elements, in order |
| StepAssembly.InitStepsShape | src/initialize.js:178-217 | one step per separator, plus one when the last group is not empty; the steps' elements are exactly the non-separator elements, in order |
| StepAssembly.PartitionsAgree | src/initialize.js:178-217 | the two partitions differ only by the empty steps src/initialize.js keeps |
| Interpolation.PlaceholderAt | src/downloadPage.js:356 | a placeholder runs from `{` to `}` around an identifier |
| Interpolation.Replacement | src/downloadPage.js:357-360 | a name with a value other than null or undefined shows the value; otherwise the placeholder is written back without its spaces |
| Interpolation.NoPlaceholder | src/downloadPage.js:354-362 | text without `{` is shown as it is |
| Interpolation.PrefixKept | src/downloadPage.js:354-362 | text without `{` before a placeholder is copied |
| Interpolation.PlaceholderReplaced | src/downloadPage.js:354-362 | `{ name }` is replaced by the name's replacement, and the search goes on after it |
| InlineVariables.UpdateInlineVariables | src/downloadPage.js:353-383 | the walker loop over the text nodes computes the pass: each visit caches the original on the node's element if absent and shows it with placeholders replaced |
| InlineVariables.PassShowsOriginal | src/downloadPage.js:375-380 | after a pass, every visited node shows the cached original of its element, interpolated |
| InlineVariables.PassKeepsUnvisited | src/downloadPage.js:366-382 | a node no walker visits keeps its text |
| InlineVariables.PassKeepsCached | src/downloadPage.js:375-377 | an original, once cached, is never overwritten |
| InlineVariables.Rerender | src/downloadPage.js:375-380 | after the variables change, a new pass starts again from the cached originals |
| InlineVariables.PassIdempotent | src/downloadPage.js:375-380 | a second pass with the same variables changes nothing |
| InlineVariables.SharedOriginalCopiesFirstText | src/downloadPage.js:375-380 | as written, two text nodes of one element both show the first node's text |
| InlineVariables.UpdateInlineVariablesPerNode | src/downloadPage.js:366-382 | the corrected walker loop, with one original per text node, computes the pass |
| InlineVariables.OwnTextShown | src/downloadPage.js:375-380 | with one original per text node, on a page with no original cached yet, every visited node shows its own text, interpolated |
| InlineVariables.PerNodeShowsOwnText | src/downloadPage.js:375-380 | with one original per text node, each text node of a fresh page shows its own text |
| PageRuntime.Answered | src/downloadPage.js:81-137 | an accepted answer for an existing name replaces that variable's value with the untrimmed answer; no name is added; a blank or invalid input or a block without `data-var` changes nothing |
| PageRuntime.PageVariables | src/downloadPage.js:73 | the downloaded page's variables are the compiler's without those whose value is `undefined`, which `JSON.stringify` leaves out |
| PageRuntime.UndefinedAnswerSkipped | src/downloadPage.js:86-92 | on the downloaded page, an answer for a variable declared without a value is skipped |
| PageRuntime.DefinedAnswerTaken | src/downloadPage.js:86-92 | an accepted answer for any other variable of the compiler is taken |
| PageRuntime.AnswersKeepNames | src/downloadPage.js:86-92 | however many answers are given, the variables keep exactly their names |
| PageRuntime.UnansweredKept | src/downloadPage.js:86-92 | a variable no answer names keeps its value |
| PageRuntime.LastAnswerWins | src/downloadPage.js:86-92 | the last accepted answer for a variable is the value it keeps |
| PageRuntime.EvaluateExpression | src/downloadPage.js:305-326 | true exactly when the trimmed expression is not blank and evaluates, without throwing, to a truthy value |
| PageRuntime.ShownAfter | src/downloadPage.js:328-351 | a conditional in a displayed step with a non-blank expression is shown exactly when the expression holds; any other keeps its display |
| PageRuntime.ExecuteShowIf | src/downloadPage.js:328-351 | the loop over the page's conditionals sets each one's display as `ShownAfter` says |
| PageRuntime.ShowIfSettles | src/downloadPage.js:328-351 | evaluating twice with the same variables changes nothing, and an evaluated block's display does not depend on what it was |
| PageRuntime.ExecuteCodeBlocks | src/downloadPage.js:385-417 | the step's non-blank code blocks run trimmed, in order, each on the variables the previous left |
| PageRuntime.RunAllAppend | src/downloadPage.js:398-415 | running two lists of blocks is running the second on what the first left |
| PageRuntime.BlankCodeRunsNothing | src/downloadPage.js:399-400 | a step whose code blocks are all blank leaves the variables unchanged |
| PageRuntime.IdleCodeRunsNothing | src/downloadPage.js:395-405 | with an evaluator for which `undefined` changes nothing, a step whose code texts are all `""` or `"undefined"` leaves the variables unchanged |
| PageRuntime.RuntimePass | src/initialize.js:161-163 | code blocks, then interpolation, then conditions: the last two see the variables the code left |
| Navigation.Path | src/downloadPage.js:144-145 | the stack holding every step from the first to `n`, in order |
| Navigation.Navigator.constructor | src/downloadPage.js:144-145 | navigation starts on step 0 with the stack `[0]` |
| Navigation.Navigator.Back | src/downloadPage.js:265-276 | Back pops the stack and its new top becomes the current step, which is one less |
| Navigation.Navigator.Next | src/downloadPage.js:278-293 | Next increments the current step and pushes it; the stack still holds every step from 0 up to it |
| Navigation.OfferedButtons | src/downloadPage.js:265-278 | Back is offered exactly away from the first step; Next exactly when no end is visible and a later step exists |
| Navigation.NextThenBack | src/downloadPage.js:265-293 | Next then Back restores the current step and the stack |
| Navigation.PassesGate | src/downloadPage.js:456-465 | Next goes through when the step has no repeat condition; a condition that is only white space blocks it; otherwise Next goes through exactly when the trimmed condition evaluates, without throwing, to true |
| Navigation.ClickNext | src/downloadPage.js:442-482 | a passing click advances and runs the new step's pass; a failing click keeps the step and stack and runs the same step's code blocks again, which leaves the variables unchanged when the code texts are idle |
| Navigation.InitializePage | src/downloadPage.js:151-162 | only the first step is displayed, the pass runs on its code blocks, and navigation starts at step 0; idle code texts leave the variables unchanged |
| Navigation.GeneratedCodesIdle | src/parser.js:107-131 | every code text of every step of a page built from the parser's output, downloaded or rendered by src/initialize.js, is `""` or `"undefined"` |

## Left out

- The JavaScript evaluator. Running code blocks (`new Function` in `runUserCode`, and `with (vars)` in the page's `executeCodeBlocks`) and evaluating expressions are function parameters (`CodeOracle`, `StepCode`, `Evaluator`). The model does not distinguish the `ReferenceError` case, which the page's `evaluateExpression` folds into false.
- `executeShowIf` of codeExecution.js (lines 174-219). Its default for unknown names is true, while the page's evaluator returns false. It is not called by the parser modelled here.
- The DOM. Containers are sequences of blocks. Widgets, markdown rendering (`createText`), CSS, scrolling and button wiring are not modelled, and neither are src/procedureRuntime.js, src/rendering.js and the render-history files.
- `hasVisibleEnd` (src/downloadPage.js:195-253). Whether the current step shows an end is a parameter `isEndStep`.
- The repeat conditions. `getRepeatStepConditions` is not part of this model, because its definition is not among the repository files shown. The conditions are a parameter map from step index to expression.
- The code texts the runtime reads. `ClickNext` and `InitializePage` take them as a parameter `stepCodes`. `Navigation.GeneratedCodesIdle` ties that parameter to the parser's output through `StepAssembly.CodesOf`. The evaluator's behaviour on `undefined` is the parameter condition `IdleOnUndefined`.
- src/codeExecution.js, which src/parser.js imports, is not part of this model. The top-level codeExecution.js is modelled in its place; under it the code blocks hold only `""` or `"undefined"`.
- Which step `executeCodeBlocks` runs. The page runs the last displayed step; the model is given the current step's code texts.
- The order in which the tree walkers visit text nodes, and the element of each node. Both are parameters (`visits`, `slot`).
- Hiding code blocks after they run, clearing inputs on a repeat, and scrolling. None of these changes the variables.
- localStorage, the Blob download and the HTML template of the generated page (src/downloadPage.js:496-554).
- The UI globals of `questionParsing`: `allSteps`, `currentStep`, `finished`, and the answer callbacks.
- `createFinalBackButton`. It is modelled as one `BackButton` block; its click handler is not modelled.
- Console logging.
- Characters. JavaScript strings are sequences of UTF-16 code units, and `trim`, `split` and the regular expressions work on those. The model's strings are sequences of Dafny `char`, so a character outside the Basic Multilingual Plane is one element here and two code units in the source. The white-space and line-terminator sets are the ones JavaScript uses.
- ConstMacros.ReplaceConstVars: does not model the source's `constVars[varName] !== undefined` test finding inherited properties of a plain object, such as `{const constructor}`. Only the constants actually defined are replaced.
- Questions.QuestionParsing: the source's `in` test is modelled by own keys. The inherited-name behaviour is kept separately in `ParseQuestionAsWritten` (see Findings).
- PageRuntime.PageVariables: only the loss of `undefined` values is modelled. The rest of JSON's conversion (functions dropped, `NaN` written as `null`, objects copied) is not, since the model keeps only the text a value shows as.
- The numeric coercion in codeExecution.js (lines 103-142). It is commented out in the source, so values are kept as text.

## Findings

| source | as written | input that shows it | evidently intended | confidence | as-written member | corrected member |
|---|---|---|---|---|---|---|
| src/parser.js:56-75 | `match[2] in variables` also accepts names inherited from `Object.prototype` | `Q: Name [constructor]` with no variables declared | a question only for the procedure's own variables | not executed | Questions.InheritedNameAsked | Questions.InheritedNameIgnored |
| parser.js:206 | the -1 that a nested `{end}` returns (parser.js:370) is stored in the cursor, which `i++` turns into 0 | a step with the lines `{showif x`, `{end}`, `}` | `{end}` inside a conditional ends the step as it does at the top level | not executed | ParserFacts.LegacyEndStepRepeats | ParserFacts.HaltingEndStepStops |
| src/downloadPage.js:375-380 | `data-original` is cached on the parent element, shared by all its text nodes | an element with text nodes `a` and `b` (e.g. `a<b>x</b>b`) | each text node keeps and shows its own original | not executed | InlineVariables.SharedOriginalCopiesFirstText | InlineVariables.PerNodeShowsOwnText |
| codeExecution.js:147-150 | `[^)]+` stops at the first `)`, so a condition containing a call keeps a stray `)` | `if (f(x)) y` becomes `if (true)) y`, and `runUserCode` sends that to `new Function` (CodeRunner.NestedCallSentAsWritten) | the whole condition is replaced: `if (true) y` | not executed | IfRewrite.NestedCallLeavesParenthesis | IfRewrite.NestedCallIntended |

# Changelog tooling: supplier rewriter, log-scan bookkeeping and config binding

This project is a Dafny model of three small pieces of the Changelog
repository, with their properties proved.

- **The SLF4J supplier-chain rewriter** (`SLF4J-supplier-style.py`). It
  rewrites fluent logging chains such as
  `log.atInfo().setMessage("{}").addArgument(() -> "User="+id).log()` so
  that each supplier lambda becomes a `{}` message template plus plain
  `.addArgument(x)` calls. The model covers the top-level splitter, the
  lambda normaliser, the template builder, the call rewriter with its
  parenthesis matcher, the Java string escaping, and the final
  `setMessage("{}")` substitution.
- **The log-migration scanner's bookkeeping** (`scan_logs.py`). This is
  the `ScanResult` accumulator, the offset-to-line rule, the summary order,
  the per-file grouping of the HTML report, and the `--fail-on` exit code.
  Findings are inputs.
- **The reactive configuration binding** (`de.burger.it`). This is the
  key-to-value store `ConfigValueModel`, the `ConfigProcessor` that stores
  every item and then submits it, the echo-suppressing
  `ConfigBoundTextField`, and the `ConfigPersistenceBridge` that loads a
  file and replays every stored value.

Modules and files:

| file | module | models |
|---|---|---|
| `wrappers.dfy` | `Wrappers` | `Option` |
| `text.dfy` | `Text` | `str.strip`, `str.find`, `re.sub(r"\s+", " ", …)` |
| `java_string.dfy` | `JavaString` | `STR_LIT_RE`, `unquote_java_literal`, `escape_java_string` |
| `supplier_split.dfy` | `SupplierSplit` | `split_top_level` and its comma/concat wrappers |
| `supplier_lambda.dfy` | `SupplierLambda` | `normalize_lambda`, `BLOCK_LAMBDA_RE`, `build_msg_and_args_from_lambda` |
| `supplier_rewrite.dfy` | `SupplierRewrite` | `replace_supplier_calls`, `transform_chain` |
| `supplier_examples.dfy` | `SupplierExamples` | the rewriter's self-tests |
| `scan_logs.dfy` | `ScanLogs` | `Finding`, `ScanResult`, line numbers, summary order, `by_file`, exit code |
| `config_model.dfy` | `ConfigModel` | `ConfigValue`, `ConfigValueModel`, `String.valueOf` |
| `config_flow.dfy` | `ConfigFlow` | `ConfigProcessor` and the `SubmissionPublisher` it extends |
| `config_field.dfy` | `ConfigField` | `ConfigBoundTextField` |
| `config_persistence.dfy` | `ConfigPersistence` | `ConfigPersistenceBridge`, the reading side of `ConfigJsonMapper` |

Modelling decisions:

- Python strings are `seq<char>`. Whitespace (`str.strip`, `str.isspace`,
  the regex class `\s`) is the ASCII set: space, `\t` to `\r`, and 0x1C
  to 0x1F.
- The two scanning loops are `method`s with loop invariants. They are
  proved equal to recursive specification functions (`SplitParts`,
  `CloseFrom`, `Scan`), and the properties are proved about those
  functions. Both loops use the same one-character step, `Lex`. In the
  parenthesis matcher the source leaves a stale `quote` after a literal
  closes. That value is never read outside a literal, so the model resets
  it.
- The regular expressions of the core are written out by hand:
  - `STR_LIT_RE` is `IsLiteralToken`;
  - `BLOCK_LAMBDA_RE` is `BlockBody`;
  - the `setMessage("{}")` pattern is `SetMessageAt`, and `FirstSetMessage`
    finds its leftmost match.
- `ConfigValue` is a datatype. Its payload `T` is `JValue`, which holds a
  string, an integer, a boolean or null. `String.valueOf` is `ValueOf`.
- `SubmissionPublisher` is a synchronous, ordered log of the items passed
  to `submit`, plus the list of subscribers and a `closed` flag. A
  `Subscription` records the demands requested through it.
- The file system and Jackson are parameters. A load is given a
  `StoredFile`: `Missing`, `Unreadable`, the decoded entries in the
  decoded map's order, or `Broken` entries that end in a `null` value or
  a value without a key, which `add` refuses with a
  `NullPointerException` after the earlier entries are stored. Save
  returns the path and the map that would be written.
- `ConfigValueModel.all()` iterates a `ConcurrentHashMap` in an
  unspecified order. `All` promises only that each entry is listed exactly
  once.

## Model

| member | source | states |
|---|---|---|
| `Text.Find` | src/test/sourceTest/SLF4J-supplier-style.py:167 | `s.find(pat, i)`: returns -1 or a position at or after `i` where `pat` occurs, and no match lies between `i` and that position |
| `Text.StripEmpty` | src/test/sourceTest/SLF4J-supplier-style.py:112-113 | `strip()` gives the empty string exactly when the text is all whitespace |
| `Text.StripSurrounded` | src/test/sourceTest/SLF4J-supplier-style.py:130 | whitespace on either side of a text does not survive `strip()` |
| `Text.CollapseNoDoubleSpace` | src/test/sourceTest/SLF4J-supplier-style.py:149 | after `\s+` → ` `, no two spaces are adjacent |
| `Text.CollapseKeepsText` | src/test/sourceTest/SLF4J-supplier-style.py:149 | collapsing whitespace neither loses, adds nor reorders a non-whitespace character |
| `JavaString.Unquote` | src/test/sourceTest/SLF4J-supplier-style.py:76-82 | a token not wrapped in matching quotes is returned as it is; otherwise the text between the quotes |
| `JavaString.QuotedIsLiteral` | src/test/sourceTest/SLF4J-supplier-style.py:73 | a well-formed body between two of its quotes matches the literal pattern |
| `JavaString.UnquoteLiteral` | src/test/sourceTest/SLF4J-supplier-style.py:73-82 | on a literal token, the content is exactly the well-formed body between its two quotes |
| `JavaString.ReplaceChar` | src/test/sourceTest/SLF4J-supplier-style.py:86 | `str.replace` of one character: no occurrence survives unless the replacement contains it, and text without it is unchanged |
| `JavaString.EscapeIsOnePass` | src/test/sourceTest/SLF4J-supplier-style.py:84-86 | doubling backslashes first and then escaping `"` is the same as escaping each character on its own, so the two passes do not interfere |
| `JavaString.EscapeRoundTrip` | src/test/sourceTest/SLF4J-supplier-style.py:84-86 | reading the escaped text back as Java does gives the original message |
| `JavaString.EscapedIsLiteral` | src/test/sourceTest/SLF4J-supplier-style.py:84-86 | any escaped message between double quotes is one well-formed string literal |
| `SupplierSplit.Lex` | src/test/sourceTest/SLF4J-supplier-style.py:96-110 | one step of the scan keeps "quote set exactly inside a literal, escape only inside a literal"; outside a literal a non-quote never opens one |
| `SupplierSplit.FlushClean` | src/test/sourceTest/SLF4J-supplier-style.py:117-119 | ending a part keeps the parts clean: every part kept is non-empty and stripped, so blank fields vanish |
| `SupplierSplit.SplitTopLevel` | src/test/sourceTest/SLF4J-supplier-style.py:88-120 | the loop computes `SplitParts`, and every part is non-empty and stripped |
| `SupplierSplit.SplitPartsClean` | src/test/sourceTest/SLF4J-supplier-style.py:111-119 | every part returned is non-empty and has no surrounding whitespace, so empty fields are dropped |
| `SupplierSplit.SplitPartsCharsIn` | src/test/sourceTest/SLF4J-supplier-style.py:88-120 | every part is made of characters of the input |
| `SupplierSplit.SplitRunLex` | src/test/sourceTest/SLF4J-supplier-style.py:95-116 | the splitter tracks string, escape and depth state exactly as the shared lexer does |
| `SupplierSplit.LiteralIsOnePart` | src/test/sourceTest/SLF4J-supplier-style.py:96-106 | a separator inside a quoted literal never splits it; `\"` does not end the literal |
| `SupplierSplit.InsideLiteral` | src/test/sourceTest/SLF4J-supplier-style.py:96-103 | reading a well-formed literal body, the scan stays inside the literal and meets no split point |
| `SupplierSplit.RunDeeper` | src/test/sourceTest/SLF4J-supplier-style.py:107-111 | text that never closes more parentheses than it opens scans the same at any extra depth, and at positive depth meets no split point |
| `SupplierSplit.InsideParens` | src/test/sourceTest/SLF4J-supplier-style.py:107-111 | inside parentheses, nested text (literals, further groups) holds no split point for any separator, and the depth is left as found |
| `SupplierSplit.ParenGroup` | src/test/sourceTest/SLF4J-supplier-style.py:107-111 | a parenthesised group of nested text holds no split point and restores the scan state |
| `SupplierSplit.NestedGroup` | src/test/sourceTest/SLF4J-supplier-style.py:107-111 | a parenthesised group of nested text is nested text again, so groups may be nested to any depth |
| `SupplierSplit.NestedLiteral` | src/test/sourceTest/SLF4J-supplier-style.py:96-106 | a well-formed quoted literal, parentheses inside it included, is nested text |
| `SupplierSplit.BalancedGroup` | src/test/sourceTest/SLF4J-supplier-style.py:96-119 | a parenthesised group of nested text splits, for every separator, into itself stripped |
| `SupplierSplit.UnmatchedCloseIsClamped` | src/test/sourceTest/SLF4J-supplier-style.py:109-111 | an unmatched `)` clamps the depth at 0, so a later top-level separator still splits |
| `SupplierSplit.SplitAtSeparator` | src/test/sourceTest/SLF4J-supplier-style.py:111-114 | a top-level separator cuts the text in two, and each side splits on its own |
| `SupplierSplit.SplitWhole` | src/test/sourceTest/SLF4J-supplier-style.py:117-119 | text without a top-level separator is one stripped part, or none when blank |
| `SupplierSplit.SplitJoin` | src/test/sourceTest/SLF4J-supplier-style.py:88-126 | splitting undoes joining: balanced, non-blank parts joined by the separator split back into those parts, stripped |
| `SupplierLambda.NormalizeLambda` | src/test/sourceTest/SLF4J-supplier-style.py:128-132 | the result is stripped; a body that does not match the block pattern (in particular one not starting with `{`) is returned stripped and otherwise unchanged |
| `SupplierLambda.BlockBodyShape` | src/test/sourceTest/SLF4J-supplier-style.py:74 | the block pattern matches only `{ return e; }` with whitespace runs around the words and at least one after `return`, and captures that run followed by `e` |
| `SupplierLambda.NormalizeBlock` | src/test/sourceTest/SLF4J-supplier-style.py:74 | `{ return e; }`, with any whitespace layout, normalises to `e` stripped |
| `SupplierLambda.CollectToken` | src/test/sourceTest/SLF4J-supplier-style.py:143-149 | only a non-literal operand adds an argument, exactly one, on one line and with the operand's own non-space characters; unless a literal holds braces, the piece has as many `{}` as arguments were added |
| `SupplierLambda.BuildMsgAndArgs` | src/test/sourceTest/SLF4J-supplier-style.py:134-150 | the loop yields the message as the concatenation of the operands' pieces, in order, and the arguments as the non-literal operands, in order |
| `SupplierLambda.PlaceholdersMatchArgs` | src/test/sourceTest/SLF4J-supplier-style.py:140-150 | with brace-free literals, the message holds exactly one `{}` per argument |
| `SupplierLambda.ArgTextOneLine` | src/test/sourceTest/SLF4J-supplier-style.py:149 | an argument is stripped, its whitespace is single spaces, and its other characters are those of the token |
| `SupplierLambda.ArgsOneLine` | src/test/sourceTest/SLF4J-supplier-style.py:143-150 | every argument returned is on one line with single spaces |
| `SupplierLambda.AllLiterals` | src/test/sourceTest/SLF4J-supplier-style.py:143-145 | operands that are all literals give no arguments and the concatenation of their contents |
| `SupplierLambda.TemplateClosedEnd` | src/test/sourceTest/SLF4J-supplier-style.py:140-150 | with brace-free literals the message never ends in a dangling `{` |
| `SupplierRewrite.CloseFrom` | src/test/sourceTest/SLF4J-supplier-style.py:179-194 | the matching `)` found lies at or after the start and is a `)` |
| `SupplierRewrite.ClosedIsBalanced` | src/test/sourceTest/SLF4J-supplier-style.py:179-194 | between the call's parentheses the scan ends outside literals, back at depth one |
| `SupplierRewrite.MatchingParen` | src/test/sourceTest/SLF4J-supplier-style.py:173-194 | the loop stops just after the matching `)`, or at the end of the text when there is none |
| `SupplierRewrite.PlaceholdersCount` | src/test/sourceTest/SLF4J-supplier-style.py:211 | `" ".join(["{}"] * n)` holds exactly `n` placeholders |
| `SupplierRewrite.JoinSpacedSeam` | src/test/sourceTest/SLF4J-supplier-style.py:209-216 | the first fragment starts the message and the second ends it; a non-empty first fragment is always followed by whitespace, so fragments never run together; the seam adds no double space when the second fragment does not start with a space |
| `SupplierRewrite.JoinSpacedHoles` | src/test/sourceTest/SLF4J-supplier-style.py:213-216 | joining fragments adds their placeholders and creates none |
| `SupplierRewrite.SupplierHasArrow` | src/test/sourceTest/SLF4J-supplier-style.py:201 | a call is a supplier only when its first argument starts with `() ->`, so it contains `->` |
| `SupplierRewrite.SupplierPlaceholders` | src/test/sourceTest/SLF4J-supplier-style.py:204-224 | a supplier's fragment holds exactly one `{}` per `.addArgument` it is replaced by, lambda arguments and extras together |
| `SupplierRewrite.AddArgsAppend` | src/test/sourceTest/SLF4J-supplier-style.py:219-224 | the calls for lambda arguments and then extras are the calls for the lambda arguments followed by those for the extras |
| `SupplierRewrite.NoArrowKept` | src/test/sourceTest/SLF4J-supplier-style.py:225-227 | a call without a supplier is re-emitted as `.addArgument(<stripped arglist>)` and the message is untouched |
| `SupplierRewrite.EmitCalls` | src/test/sourceTest/SLF4J-supplier-style.py:219-224 | the loop appends `.addArgument(x)` for every `x`, in order |
| `SupplierRewrite.AssembleCall` | src/test/sourceTest/SLF4J-supplier-style.py:206-224 | the replacement holds the lambda arguments then the extras, and the message gets the fragment plus one `{}` per extra, spaced only when needed |
| `SupplierRewrite.RewriteSupplier` | src/test/sourceTest/SLF4J-supplier-style.py:201-224 | the supplier branch computes the rendering of the call |
| `SupplierRewrite.RewriteCall` | src/test/sourceTest/SLF4J-supplier-style.py:196-229 | one call is rewritten as `RenderCall` specifies, supplier or not |
| `SupplierRewrite.ReplaceSupplierCalls` | src/test/sourceTest/SLF4J-supplier-style.py:154-232 | the loop computes the rewritten chain and the accumulated message; text outside the calls is copied verbatim |
| `SupplierRewrite.NoCallsUnchanged` | src/test/sourceTest/SLF4J-supplier-style.py:166-170 | a chain with no `.addArgument(` is returned unchanged with the message as it was (empty at the start) |
| `SupplierRewrite.NoArrowNoMessage` | src/test/sourceTest/SLF4J-supplier-style.py:200-232 | without any supplier in the chain, the accumulated message stays what it was |
| `SupplierRewrite.SkipSpacesRun` | src/test/sourceTest/SLF4J-supplier-style.py:244 | what a `\s*` run consumes is whitespace, and it stops at non-whitespace |
| `SupplierRewrite.SetMessageAt` | src/test/sourceTest/SLF4J-supplier-style.py:244 | a match of `.setMessage( "{}" )` starts with `.`, its first group ends with `(` and the match ends with `)` |
| `SupplierRewrite.FirstSetMessage` | src/test/sourceTest/SLF4J-supplier-style.py:243-247 | the match used is the leftmost one: no position before it matches |
| `SupplierRewrite.NoSupplierUnchanged` | src/test/sourceTest/SLF4J-supplier-style.py:239-241 | a chain with no `>` holds no supplier and is returned unchanged |
| `SupplierRewrite.NoMessageUnchanged` | src/test/sourceTest/SLF4J-supplier-style.py:239-241 | whenever the accumulated message is empty, `transform_chain` returns the original chain, discarding any rewritten calls |
| `SupplierRewrite.TransformedMessage` | src/test/sourceTest/SLF4J-supplier-style.py:239-248 | with a message, only the first `setMessage("{}")` has its literal replaced by a well-formed literal that reads back as the message; the text around it and the `(` and `)` are kept |
| `SupplierExamples.ExpressionCall` | src/test/sourceTest/SLF4J-supplier-style.py:140-150 | for every expression lambda over literals and names followed by names: the lambda's names and then the names become arguments, and the fragment is joined onto the message |
| `SupplierExamples.BlockCall` | src/test/sourceTest/SLF4J-supplier-style.py:128-150 | a block lambda is rewritten exactly as the expression it returns |
| `SupplierExamples.ErrorCall` | src/test/sourceTest/SLF4J-supplier-style.py:293-300 | self-test 1: `() -> "My Error: "+e+", the parameter="+param` gives `My Error: {}, the parameter={}` with `.addArgument(e)` and `.addArgument(param)` |
| `SupplierExamples.BlockLambdaCall` | src/test/sourceTest/SLF4J-supplier-style.py:302-312 | self-test 2: `() -> { return "N="+n+", cause="+e; }` gives `N={}, cause={}` with `.addArgument(n)` and `.addArgument(e)` |
| `SupplierExamples.UserCall` | src/test/sourceTest/SLF4J-supplier-style.py:314-320 | self-test 3, first supplier: `() -> "User="+userId+" "` gives `.addArgument(userId)` and the message `User={} ` |
| `SupplierExamples.FileCall` | src/test/sourceTest/SLF4J-supplier-style.py:321-326 | self-test 3, second supplier: after `User={} ` the message becomes `User={} File:{} size={}`, with no double space |
| `SupplierExamples.IdCall` | src/test/sourceTest/SLF4J-supplier-style.py:328-339 | self-test 4: `() -> "ID="+id` gives `.addArgument(id)` and `ID={}` |
| `SupplierExamples.KeptCauseCall` | src/test/sourceTest/SLF4J-supplier-style.py:335-339 | self-test 4: the non-supplier `.addArgument(cause)` is kept as it is |
| `SupplierExamples.StaticAloneCall` | src/test/sourceTest/SLF4J-supplier-style.py:341-348 | self-test 5: a literal-only lambda gives its text as the message and no argument |
| `SupplierExamples.StaticThenOneCall` | src/test/sourceTest/SLF4J-supplier-style.py:350-357 | self-test 6: one extra argument adds ` {}`, giving `Static text only {}` |
| `SupplierExamples.EmptyLiteralCall` | src/test/sourceTest/SLF4J-supplier-style.py:204-224 | `() -> ""` becomes no argument and no message, so a chain whose only supplier it is keeps its original text |
| `SupplierExamples.GroupFacts` | src/test/sourceTest/SLF4J-supplier-style.py:140-149 | a parenthesised operand is balanced, not a literal, and gives `{}` with itself, whitespace-collapsed, as argument |
| `SupplierExamples.LitGroupThenOne` | src/test/sourceTest/SLF4J-supplier-style.py:140-224 | `() -> "a"+g, y`, for any parenthesised group `g` of nested text, gives the arguments `g` (whitespace-collapsed) and `y`, and the fragment `a{} {}` |
| `SupplierExamples.ConditionCollapsed` | src/test/sourceTest/SLF4J-supplier-style.py:149 | the multi-line ternary of self-test 8 collapses to `(cause != null ? cause.getMessage() : "none")` on one line |
| `SupplierExamples.ConditionCall` | src/test/sourceTest/SLF4J-supplier-style.py:371-389 | self-test 8, second supplier: after `ID={}` the message becomes `ID={} C={} {}`, with `.addArgument((cause != null ? cause.getMessage() : "none"))` and `.addArgument(cause)` |
| `SupplierExamples.OopsCall` | src/test/sourceTest/SLF4J-supplier-style.py:359-369 | self-test 7: `() -> "Oops: "+e, ctx, e` gives `Oops: {} {} {}` with `.addArgument(e)`, `.addArgument(ctx)`, `.addArgument(e)` |
| `ScanLogs.ScanResult.constructor` | src/test/sourceTest/scan_logs.py:26-29 | a new result has no findings, suggestions or totals |
| `ScanLogs.ScanResult.AddFinding` | src/test/sourceTest/scan_logs.py:30-31 | the finding is appended at the end; earlier findings, suggestions and totals are unchanged |
| `ScanLogs.ScanResult.AddSuggestion` | src/test/sourceTest/scan_logs.py:32-33 | `{before, after, note}` is appended to that file's list, created when absent; every other file's list is unchanged |
| `ScanLogs.ScanResult.Finalize` | src/test/sourceTest/scan_logs.py:34-38 | the counting loop sets the totals to the tally of the findings, rebuilt from scratch; findings and suggestions are unchanged |
| `ScanLogs.FinalizeTwice` | src/test/sourceTest/scan_logs.py:34-38 | `finalize` is idempotent |
| `ScanLogs.CountAbsent` | src/test/sourceTest/scan_logs.py:36-37 | a kind that never occurs is counted zero times |
| `ScanLogs.TallyCounts` | src/test/sourceTest/scan_logs.py:34-38 | the totals' keys are exactly the kinds present, and each total is the number of findings of that kind |
| `ScanLogs.TallySum` | src/test/sourceTest/scan_logs.py:34-38 | the totals sum to the number of findings |
| `ScanLogs.LineOf` | src/test/sourceTest/scan_logs.py:56 | the line of offset `o` is the number of `\n` before `o` plus 1, so at least 1 and at most `o + 1` |
| `ScanLogs.LineOfStep` | src/test/sourceTest/scan_logs.py:56 | moving one character on raises the line exactly when that character is a newline |
| `ScanLogs.LineOfMonotone` | src/test/sourceTest/scan_logs.py:56 | a later offset is never on an earlier line |
| `ScanLogs.LexTotal` | src/test/sourceTest/scan_logs.py:145 | Python's string order is total |
| `ScanLogs.LexIrreflexive` | src/test/sourceTest/scan_logs.py:145 | no string sorts before itself |
| `ScanLogs.PrecedesTotal` | src/test/sourceTest/scan_logs.py:145 | the key `(-count, kind)` orders any two summary lines |
| `ScanLogs.Insert` | src/test/sourceTest/scan_logs.py:145 | inserting into a sorted summary keeps it sorted and adds exactly that line |
| `ScanLogs.Summary` | src/test/sourceTest/scan_logs.py:282 | the summary is a permutation of the totals, sorted descending by count and ascending by kind among equal counts |
| `ScanLogs.SummaryStrict` | src/test/sourceTest/scan_logs.py:145 | with distinct kinds, each line has a greater count than the next, or the same count and a smaller kind |
| `ScanLogs.GroupByFile` | src/test/sourceTest/scan_logs.py:122-124 | the loop builds `by_file` as `Grouped` specifies |
| `ScanLogs.GroupedIsOfFile` | src/test/sourceTest/scan_logs.py:122-124 | exactly the files with findings have a group, and each group is that file's findings in the original order |
| `ScanLogs.OfFileAppend` | src/test/sourceTest/scan_logs.py:122-124 | grouping preserves relative order: the group of two runs of findings is the first run's group followed by the second's |
| `ScanLogs.OfFileMembers` | src/test/sourceTest/scan_logs.py:122-124 | a file's group holds exactly the findings of that file |
| `ScanLogs.HitExists` | src/test/sourceTest/scan_logs.py:290 | `any(f.kind in failing for f in findings)` |
| `ScanLogs.ExitCode` | src/test/sourceTest/scan_logs.py:288-292 | the exit code is 1 exactly when the fail-on set is non-empty and some finding's kind is in it, 0 otherwise |
| `ConfigModel.Digits` | src/main/java/de/burger/it/ConfigBoundTextField.java:39 | the rendering of a natural number is a decimal numeral: digits only, no leading zero, `0` exactly for zero |
| `ConfigModel.DigitsRoundTrip` | src/main/java/de/burger/it/ConfigBoundTextField.java:39 | the decimal rendering of a natural number reads back as that number |
| `ConfigModel.ValueOf` | src/main/java/de/burger/it/ConfigBoundTextField.java:31 | `String.valueOf` keeps a string; renders an integer as an optional `-` and a decimal numeral without leading zeros that reads back as its magnitude; renders booleans as `true`/`false` and null as `null` |
| `ConfigModel.Put` | src/main/java/de/burger/it/ConfigValueModel.java:12-14 | after storing `v`, its key finds `v`; every other key finds what it found before; entries stay under their own key |
| `ConfigModel.PutLastWins` | src/main/java/de/burger/it/ConfigValueModel.java:13 | two writes to one key keep only the second |
| `ConfigModel.PutPresent` | src/main/java/de/burger/it/ConfigValueModel.java:13 | writing an entry that is already stored changes nothing |
| `ConfigModel.Without` | src/main/java/de/burger/it/ConfigValueModel.java:16-18 | after removal the key finds nothing, other keys are unchanged, and removing an absent key changes nothing |
| `ConfigModel.ListingLength` | src/main/java/de/burger/it/ConfigValueModel.java:36-38 | a listing of every entry once is as long as the map |
| `ConfigModel.ListingGrows` | src/main/java/de/burger/it/ConfigValueModel.java:36-38 | adding one more entry extends a partial listing of the map |
| `ConfigModel.ConfigValueModel.constructor` | src/main/java/de/burger/it/ConfigValueModel.java:10 | the store starts empty |
| `ConfigModel.ConfigValueModel.Add` | src/main/java/de/burger/it/ConfigValueModel.java:12-14 | `add` stores the value under its key, last write wins |
| `ConfigModel.ConfigValueModel.Remove` | src/main/java/de/burger/it/ConfigValueModel.java:16-18 | `remove` deletes the key and nothing else |
| `ConfigModel.ConfigValueModel.Get` | src/main/java/de/burger/it/ConfigValueModel.java:20-22 | `get` is present exactly when the key is stored, and then returns its entry |
| `ConfigModel.ConfigValueModel.ExportRaw` | src/main/java/de/burger/it/ConfigValueModel.java:24-26 | the export equals the current mapping |
| `ConfigModel.ExportIsSnapshot` | src/main/java/de/burger/it/ConfigValueModel.java:24-26 | an export taken before a later `add` still shows the mapping as it was |
| `ConfigModel.ConfigValueModel.ExportFlatValues` | src/main/java/de/burger/it/ConfigValueModel.java:28-34 | same key set as the model, each key mapped to its entry's inner value |
| `ConfigModel.ConfigValueModel.All` | src/main/java/de/burger/it/ConfigValueModel.java:36-38 | every stored value is listed exactly once |
| `ConfigModel.ConfigValueModel.Clear` | src/main/java/de/burger/it/ConfigValueModel.java:40-42 | afterwards the model is empty and every key finds nothing |
| `ConfigFlow.ConfigProcessor.constructor` | src/main/java/de/burger/it/ConfigProcessor.java:14-16 | the processor holds the given model, is open, and has submitted nothing |
| `ConfigFlow.ConfigProcessor.Subscribe` | src/main/java/de/burger/it/ConfigBoundTextField.java:15 | an open publisher registers a new subscriber at the end, and a repeated one is unregistered (its subscription ends with an error); a closed publisher registers nothing |
| `ConfigFlow.Unsubscribed` | src/main/java/de/burger/it/ConfigBoundTextField.java:15 | dropping a subscriber keeps every other subscriber and adds none |
| `ConfigFlow.ConfigProcessor.Submit` | src/main/java/de/burger/it/ConfigProcessor.java:26 | an open publisher appends exactly the item to the log; a closed one refuses it |
| `ConfigFlow.ConfigProcessor.OnSubscribe` | src/main/java/de/burger/it/ConfigProcessor.java:19-21 | requests `Long.MAX_VALUE` |
| `ConfigFlow.ConfigProcessor.OnNext` | src/main/java/de/burger/it/ConfigProcessor.java:24-27 | stores the item under its key, then appends exactly one submission of the item itself |
| `ConfigFlow.ConfigProcessor.OnError` | src/main/java/de/burger/it/ConfigProcessor.java:29-32 | model, log, subscribers and state are unchanged |
| `ConfigFlow.ConfigProcessor.OnComplete` | src/main/java/de/burger/it/ConfigProcessor.java:35-37 | the publisher is closed and every subscriber is dropped; the log is unchanged |
| `ConfigFlow.ClosedIsTerminal` | src/main/java/de/burger/it/ConfigProcessor.java:35-37 | once closed, the processor stays closed through further calls, registers no subscriber and submits nothing more |
| `ConfigField.ConfigBoundTextField.constructor` | src/main/java/de/burger/it/ConfigBoundTextField.java:12-16 | the field starts idle and subscribes itself to the processor; it is registered exactly when the processor is open |
| `ConfigField.ConfigBoundTextField.Publish` | src/main/java/de/burger/it/ConfigBoundTextField.java:18-22 | emits `(configKey, text)` through `onNext` exactly when not updating internally; otherwise nothing changes |
| `ConfigField.ConfigBoundTextField.OnSubscribe` | src/main/java/de/burger/it/ConfigBoundTextField.java:24-34 | requests exactly 1; takes the text from the model when the key is present and keeps it otherwise; the flag is reset |
| `ConfigField.ConfigBoundTextField.OnNext` | src/main/java/de/burger/it/ConfigBoundTextField.java:36-46 | ignores other keys; for its key the text becomes `String.valueOf(value)`, and nothing changes when that is the text already; the flag is never left raised |
| `ConfigField.ConfigBoundTextField.OnError` | src/main/java/de/burger/it/ConfigBoundTextField.java:48 | text and flag are unchanged |
| `ConfigField.ConfigBoundTextField.OnComplete` | src/main/java/de/burger/it/ConfigBoundTextField.java:49 | text and flag are unchanged |
| `ConfigField.SubscribeThenReceive` | src/main/java/de/burger/it/ConfigBoundTextField.java:26-46 | a field signals a total demand of 1 and `onNext` never raises it, whatever items are handed to it; the echo flag is down after each |
| `ConfigField.PublishThenSync` | src/main/java/de/burger/it/ConfigBoundTextField.java:18-33 | what one field publishes is what another field on the same key shows once it subscribes |
| `ConfigPersistence.PathInjective` | src/main/java/de/burger/it/ConfigPersistenceBridge.java:22 | different dialog ids give different path strings (not necessarily different files) |
| `ConfigPersistence.OverlayKeeps` | src/main/java/de/burger/it/ConfigJsonMapper.java:32-34 | a key no file entry mentions keeps its value |
| `ConfigPersistence.OverlayLastWins` | src/main/java/de/burger/it/ConfigJsonMapper.java:32-34 | the last file entry for a key wins |
| `ConfigPersistence.OverlayKeyed` | src/main/java/de/burger/it/ConfigJsonMapper.java:32-34 | entries stay under their own keys |
| `ConfigPersistence.OverlayOwn` | src/main/java/de/burger/it/ConfigJsonMapper.java:32-34 | loading entries already in the model changes nothing |
| `ConfigPersistence.ReadFromFile` | src/main/java/de/burger/it/ConfigJsonMapper.java:24-35 | an absent file leaves the model unchanged; a decoded one is overlaid entry by entry; an unreadable one fails before any change; a broken one fails after the entries before the bad one are overlaid |
| `ConfigPersistence.Replay` | src/main/java/de/burger/it/ConfigPersistenceBridge.java:26-28 | every value is submitted once, in order, without touching the model |
| `ConfigPersistence.ConfigPersistenceBridge.constructor` | src/main/java/de/burger/it/ConfigPersistenceBridge.java:11-14 | the bridge holds the given processor |
| `ConfigPersistence.ConfigPersistenceBridge.Save` | src/main/java/de/burger/it/ConfigPersistenceBridge.java:16-19 | uses `configs/<id>.json`, writes the current mapping, and changes neither the model nor the log |
| `ConfigPersistence.ConfigPersistenceBridge.Load` | src/main/java/de/burger/it/ConfigPersistenceBridge.java:21-29 | uses `configs/<id>.json`; the model becomes the old model overlaid with what the read stored (unchanged if absent); a failed read ends the load before any submission; otherwise every value now in the model is submitted exactly once, old and new alike, and the model is not written again |

## Left out

- Regex matching of whole chains (`CHAIN_RE`, `transform_source`) and every pattern of `scan_java_file`/`scan_config_file`: non-greedy DOTALL matching over whole files is not modelled. Matched chains and findings are inputs.
- JavaString.Unquote: does not decode escape sequences (`unicode_escape`), because that is a library codec. The content is returned as written. The source's own decoding has two defects the model therefore does not show: a literal holding `\n` is decoded to a real newline, which `escape_java_string` does not escape again, so the emitted `setMessage` literal spans two lines and is not valid Java; and non-ASCII text, encoded as UTF-8 and decoded as Latin-1, comes out garbled.
- Text.IsSpace: only ASCII whitespace. Python's `str.strip` and `\s` also accept Unicode spaces.
- File walking, argparse (including the exit status 2 when `--root` is missing or does not exist), `process_file`, `make_demo`, JSON and HTML writing, `html.escape`, the CSS, UTC timestamps, and the sorting of `by_file` keys for display: these are I/O and presentation.
- The self-test printing, the diff output and the verbose self-tests. Every self-test is a lemma per supplier call.
- Whole-file `transform_chain` results for the self-test texts: the examples are proved per `.addArgument` call (`RenderCall`), not on the full chain text.
- `SubmissionPublisher` internals: the executor, thread pool, asynchronous buffering, per-subscriber delivery and error isolation. Delivery is the ordered log of submitted items.
- ConfigFlow.ConfigProcessor.Submit: delivery is not limited by demand. A field requests one item (`request(1)`) and never more, so the publisher hands it at most one item; the model records the demand (`SubscribeThenReceive`) but a caller may pass any number of items to `OnNext`.
- ConfigField.SubscribeThenReceive: proves that the demand stays one, not that at most one item arrives, because delivery is not limited by demand in the model.
- ConfigFlow.ConfigProcessor.Subscribe: the publisher's calls back into the subscriber are not made: `onSubscribe` (also on a closed publisher, before `onComplete`), `onComplete` for a closed publisher, and `onError` with `IllegalStateException` on the existing subscription of a repeated subscriber. Callers run `OnSubscribe` themselves. A closed publisher with a stored exception (`closeExceptionally`) is not modelled: nothing in the core calls it.
- ConfigModel.ConfigValueModel.All: returns a snapshot of the values, where Java returns a live `values()` view. `load` iterates the view without writing to the model during the loop (`submit` does not call back into it), so the two agree there.
- `ConcurrentHashMap` thread safety, and the UI-thread marshalling of deliveries to the text field.
- `ConfigJsonMapper.writeToFile`: Jackson serialisation, `mkdirs`, and its I/O errors. Save returns the path and the mapping to be written.
- The type erasure of `ConfigValue<T>` through JSON: the decoded payload is whatever `StoredFile` says, and `JValue` holds only strings, integers, booleans and null. A hand-edited file with `"value": 1.5`, an array or an object decodes to a `Double`, `List` or `Map`, which `String.valueOf` renders and the model cannot express. The application itself only ever stores strings.
- `MainApp`: Swing layout and button wiring.

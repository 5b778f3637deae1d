# CompilationAssert: the detekt compiler plugin's test assertions

The detekt compiler plugin's tests compile a Kotlin snippet with the plugin
enabled. They then inspect the captured compiler result through a fluent
assertion object:

    assertThat(result).passCompilation().passDetekt(false).withViolations(1).withRuleViolation("MagicNumber")

`CompilationAssert` wraps one `KotlinCompilation.Result`, meaning an exit code
and the full text the compiler printed. From that text it derives two views:

- The **run block** (`detektMessages`): the lines from the first line
  containing `Running detekt` through the last line containing `Success?`.
- The **violations** (`detektViolations`): the rule identifier at the head of
  every tab-led line of the block. The identifier comes after the yellow ANSI
  colour prefix `\t ESC [33m` is removed, and separates from the rest of the
  line at the first space.

Each assertion either hands back the same object, so the next check can
chain, or fails and reports the actual and expected values.

The project has four modules:

- `KotlinText` (`kotlin_text.dfy`): the Kotlin standard-library operations
  the helper composes. These are `split`, `contains`, `removePrefix`,
  `toBoolean`, `dropWhile`, `dropLastWhile`, `filter`, `map`, `any` and
  `first`. Each has its documented contract and the lemmas that connect
  them.
  - `Join`, `IndexOfFirst` and `IndexOfLast` are not called by the helper.
    They are reference definitions that the contracts are stated against.
- `DetektLog` (`detekt_log.dfy`): the run block, the violations and the
  status line, with their characterisations.
- `CompilerAssertions` (`compiler_assertions.dfy`): the `CompilationAssert`
  datatype and its five assertions.
  - A check returns `Checked`: `Passed(this)`, or `Failed(failure)` carrying
    the actual and expected values.
  - `Checked` works with Dafny's `:-`, so a chain of checks reads like the
    Kotlin chain.
- `DetektScenarios` (`scenarios.dfy`): whole logs of typical shapes and what
  every check says about them.

The model follows what the code does in four places where a reader might expect otherwise:

- **A log with a run-start line but no `Success?` line has an empty run
  block**, not one holding all the remaining lines. `dropLastWhile` drops
  every line when none contains `Success?`.
  `DetektLog.RunBlockSlice` states this.
- **The status token is parsed with Kotlin's `toBoolean`.** That is
  `equals("true", ignoreCase = true)`: `True` and `TRUE` give `true`, and
  any other token, malformed ones included, gives `false` with no parse
  error.
- **Tokens are split on a single space character, not on all whitespace.**
  The status token is the text after the last space; the rule identifier is
  the text before the first space.
- **A log without a status line makes `first { "Success?" in it }` throw.**
  Because a non-empty run block always ends with a status line, that happens
  exactly when the block is empty. The model reports it as its own failure,
  `MissingStatusLine`.

## Model

| member | source | states |
|---|---|---|
| `KotlinText.Split` | plugin-build/src/test/kotlin/io/github/detekt/compiler/plugin/util/CompilerAssertions.kt:12 | `split("\n")` gives at least one piece, no piece contains the separator, and joining the pieces with it restores the text |
| `KotlinText.SplitJoin` | plugin-build/src/test/kotlin/io/github/detekt/compiler/plugin/util/CompilerAssertions.kt:12 | splitting a join of separator-free lines gives back exactly those lines (round trip) |
| `KotlinText.RemovePrefix` | plugin-build/src/test/kotlin/io/github/detekt/compiler/plugin/util/CompilerAssertions.kt:19 | a line that starts with the prefix is the prefix followed by the result; any other line is returned unchanged |
| `KotlinText.ToBoolean` | plugin-build/src/test/kotlin/io/github/detekt/compiler/plugin/util/CompilerAssertions.kt:37 | gives true exactly when the token has four letters that spell `t`, `r`, `u`, `e` up to ASCII case; so `true`, `True` and `TRUE` give true and `false`, the empty token and any malformed token give false |
| `KotlinText.ContainsAt` | plugin-build/src/test/kotlin/io/github/detekt/compiler/plugin/util/CompilerAssertions.kt:13-14 | the `in` search finds a marker exactly when it occurs at some position of the line |
| `KotlinText.DropWhileFrom` | plugin-build/src/test/kotlin/io/github/detekt/compiler/plugin/util/CompilerAssertions.kt:13 | `dropWhile { marker !in it }` is the suffix from the first marker line, and empty when there is none |
| `KotlinText.DropLastWhileUpTo` | plugin-build/src/test/kotlin/io/github/detekt/compiler/plugin/util/CompilerAssertions.kt:14 | `dropLastWhile { marker !in it }` is the prefix through the last marker line, and empty when there is none |
| `KotlinText.FilterIndices` | plugin-build/src/test/kotlin/io/github/detekt/compiler/plugin/util/CompilerAssertions.kt:17 | there is one position per element `filter` keeps; the positions lie within the list and are strictly increasing |
| `KotlinText.FilterIndicesSource` | plugin-build/src/test/kotlin/io/github/detekt/compiler/plugin/util/CompilerAssertions.kt:17 | the j-th element `filter` keeps is the list's element at the j-th position |
| `KotlinText.FilterIndicesExact` | plugin-build/src/test/kotlin/io/github/detekt/compiler/plugin/util/CompilerAssertions.kt:17 | the positions are exactly those whose element satisfies the predicate |
| `KotlinText.FilterAppend` | plugin-build/src/test/kotlin/io/github/detekt/compiler/plugin/util/CompilerAssertions.kt:17 | filtering a concatenation is the concatenation of the filtered parts |
| `KotlinText.FilterCount` | plugin-build/src/test/kotlin/io/github/detekt/compiler/plugin/util/CompilerAssertions.kt:17 | `filter` keeps as many elements as there are positions satisfying the predicate |
| `KotlinText.Any` | plugin-build/src/test/kotlin/io/github/detekt/compiler/plugin/util/CompilerAssertions.kt:57 | `any` holds exactly when some element satisfies the predicate |
| `KotlinText.First` | plugin-build/src/test/kotlin/io/github/detekt/compiler/plugin/util/CompilerAssertions.kt:34 | `first` finds nothing exactly when no element satisfies the predicate; otherwise it yields the earliest element that does |
| `KotlinText.DropBothSlice` | plugin-build/src/test/kotlin/io/github/detekt/compiler/plugin/util/CompilerAssertions.kt:12-14 | dropping leading non-p and trailing non-q elements leaves the inclusive slice from the first p to the last q, or nothing |
| `KotlinText.DropBothEndpoints` | plugin-build/src/test/kotlin/io/github/detekt/compiler/plugin/util/CompilerAssertions.kt:12-14 | a non-empty remainder opens with a p-element and closes with a q-element; it is a contiguous slice with no p before it and no q after it |
| `KotlinText.EveryInIffSubset` | plugin-build/src/test/kotlin/io/github/detekt/compiler/plugin/util/CompilerAssertions.kt:57 | every entry of one list occurs in another exactly when its set of elements is a subset of the other's |
| `CompilerAssertions.AssertThat` | plugin-build/src/test/kotlin/io/github/detekt/compiler/plugin/util/CompilerAssertions.kt:7 | `assertThat(result)` wraps the result; its checks are stated by the `CompilationAssert` rows below |
| `DetektLog.Lines` | plugin-build/src/test/kotlin/io/github/detekt/compiler/plugin/util/CompilerAssertions.kt:12 | `result.messages.split("\n")`; its contract is that of `KotlinText.Split` and the round trip `KotlinText.SplitJoin` |
| `KotlinText.Contains` | plugin-build/src/test/kotlin/io/github/detekt/compiler/plugin/util/CompilerAssertions.kt:13-14 | the `in` test on a line; `KotlinText.ContainsAt` proves it holds exactly when the marker occurs at some position |
| `KotlinText.DropWhile` | plugin-build/src/test/kotlin/io/github/detekt/compiler/plugin/util/CompilerAssertions.kt:13 | `dropWhile`; `KotlinText.DropWhileFrom` proves it leaves the suffix from the first element that stops the drop |
| `KotlinText.DropLastWhile` | plugin-build/src/test/kotlin/io/github/detekt/compiler/plugin/util/CompilerAssertions.kt:14 | `dropLastWhile`; `KotlinText.DropLastWhileUpTo` proves it leaves the prefix through the last element that stops the drop |
| `DetektLog.RunBlock` | plugin-build/src/test/kotlin/io/github/detekt/compiler/plugin/util/CompilerAssertions.kt:12-14 | the run block; `DetektLog.RunBlockSlice`, `DetektLog.RunBlockNonEmpty` and `DetektLog.RunBlockEndpoints` carry its contract |
| `CompilerAssertions.CompilationAssert.DetektMessages` | plugin-build/src/test/kotlin/io/github/detekt/compiler/plugin/util/CompilerAssertions.kt:12-14 | the `detektMessages` field, the run block of the result's log; contract as for `DetektLog.RunBlock` |
| `KotlinText.Filter` | plugin-build/src/test/kotlin/io/github/detekt/compiler/plugin/util/CompilerAssertions.kt:17 | `filter` keeps no more elements than it is given, and every kept one satisfies the predicate; `KotlinText.FilterIndices`, `KotlinText.FilterCount` and `KotlinText.FilterAppend` fix which ones and in what order |
| `KotlinText.Map` | plugin-build/src/test/kotlin/io/github/detekt/compiler/plugin/util/CompilerAssertions.kt:19-20 | `map` yields exactly one result per element; `DetektLog.ViolationsInOrder` shows which line each violation comes from |
| `DetektLog.StripColor` | plugin-build/src/test/kotlin/io/github/detekt/compiler/plugin/util/CompilerAssertions.kt:19 | `removePrefix("\t\u001B[33m")`; its contract is that of `KotlinText.RemovePrefix`, and `DetektLog.IdentifierShape` restates it for log lines |
| `DetektLog.Identifier` | plugin-build/src/test/kotlin/io/github/detekt/compiler/plugin/util/CompilerAssertions.kt:19-20 | one line's rule identifier; `DetektLog.IdentifierShape` and `DetektLog.UncolouredIdentifierKeepsTab` carry its contract |
| `DetektLog.Violations` | plugin-build/src/test/kotlin/io/github/detekt/compiler/plugin/util/CompilerAssertions.kt:16-20 | the violations of a block; `DetektLog.ViolationsInOrder`, `DetektLog.ViolationCount`, `DetektLog.NoViolationsIffNoViolationLines` and `DetektLog.ViolationsAppend` carry its contract |
| `CompilerAssertions.CompilationAssert.DetektViolations` | plugin-build/src/test/kotlin/io/github/detekt/compiler/plugin/util/CompilerAssertions.kt:16-20 | the `detektViolations` field, the violations of the run block; contract as for `DetektLog.Violations` |
| `DetektLog.RunBlockSlice` | plugin-build/src/test/kotlin/io/github/detekt/compiler/plugin/util/CompilerAssertions.kt:12-14 | the run block is the inclusive slice of lines from the first `Running detekt` line to the last `Success?` line; it is empty when either is missing or the last status line comes first |
| `DetektLog.RunBlockNonEmpty` | plugin-build/src/test/kotlin/io/github/detekt/compiler/plugin/util/CompilerAssertions.kt:12-14 | the run block is non-empty exactly when some run-start line comes at or before some status line |
| `DetektLog.RunBlockEndpoints` | plugin-build/src/test/kotlin/io/github/detekt/compiler/plugin/util/CompilerAssertions.kt:12-14 | a non-empty block starts with a run-start line and ends with a status line; it is contiguous in the log, with no run-start line before it and no status line after it |
| `DetektLog.FirstToken` | plugin-build/src/test/kotlin/io/github/detekt/compiler/plugin/util/CompilerAssertions.kt:20 | `split(' ').first()` is space-free; it is either the whole line or the part before the line's first space |
| `DetektLog.IdentifierShape` | plugin-build/src/test/kotlin/io/github/detekt/compiler/plugin/util/CompilerAssertions.kt:19-20 | an identifier is space-free and leads the colour-stripped line; stripping removes the colour prefix exactly when it is present |
| `DetektLog.UncolouredIdentifierKeepsTab` | plugin-build/src/test/kotlin/io/github/detekt/compiler/plugin/util/CompilerAssertions.kt:17-20 | a tab-led line without the colour prefix keeps its tab, so its identifier starts with a tab |
| `DetektLog.ViolationsInOrder` | plugin-build/src/test/kotlin/io/github/detekt/compiler/plugin/util/CompilerAssertions.kt:16-20 | violation j is the identifier of the j-th tab-led line of the block; the positions are increasing and are exactly the tab-led lines |
| `DetektLog.ViolationCount` | plugin-build/src/test/kotlin/io/github/detekt/compiler/plugin/util/CompilerAssertions.kt:16-20 | the block's violation count equals its number of tab-led lines |
| `DetektLog.NoViolationsIffNoViolationLines` | plugin-build/src/test/kotlin/io/github/detekt/compiler/plugin/util/CompilerAssertions.kt:16-17 | there are no violations exactly when no line of the block starts with a tab |
| `DetektLog.ViolationsAppend` | plugin-build/src/test/kotlin/io/github/detekt/compiler/plugin/util/CompilerAssertions.kt:16-20 | violations of consecutive stretches of lines concatenate, so duplicates are kept and order is preserved |
| `DetektLog.LastToken` | plugin-build/src/test/kotlin/io/github/detekt/compiler/plugin/util/CompilerAssertions.kt:35-36 | `split(" ").last()` is space-free; it is either the whole line or the part after the line's last space |
| `DetektLog.Status` | plugin-build/src/test/kotlin/io/github/detekt/compiler/plugin/util/CompilerAssertions.kt:33-37 | there is no status exactly when the block has no `Success?` line; otherwise the status is `toBoolean` of the last token of the first such line |
| `DetektLog.StatusMissingIffEmpty` | plugin-build/src/test/kotlin/io/github/detekt/compiler/plugin/util/CompilerAssertions.kt:12-14 | within a run block a status line is missing exactly when the block is empty |
| `CompilerAssertions.CompilationAssert.PassCompilation` | plugin-build/src/test/kotlin/io/github/detekt/compiler/plugin/util/CompilerAssertions.kt:22-29 | passes, returning the same object, exactly when an expected success ends `OK` or an expected failure ends `COMPILATION_ERROR`; otherwise fails with the actual code and the expected one, which is `OK` for an expected success and `COMPILATION_ERROR` for an expected failure |
| `CompilerAssertions.CompilationAssert.PassDetekt` | plugin-build/src/test/kotlin/io/github/detekt/compiler/plugin/util/CompilerAssertions.kt:31-44 | passes, returning the same object, exactly when the block's status is the expected one; it fails with `MissingStatusLine` exactly when the block is empty, and otherwise with the opposite status and the expected one |
| `CompilerAssertions.CompilationAssert.WithNoViolations` | plugin-build/src/test/kotlin/io/github/detekt/compiler/plugin/util/CompilerAssertions.kt:46 | passes, returning the same object, exactly when no line of the block starts with a tab; otherwise fails with the positive count and expected 0 |
| `CompilerAssertions.CompilationAssert.WithViolations` | plugin-build/src/test/kotlin/io/github/detekt/compiler/plugin/util/CompilerAssertions.kt:48-54 | passes, returning the same object, exactly when the number of tab-led lines in the block is the expected number; otherwise fails with the actual and expected counts, which differ |
| `CompilerAssertions.CompilationAssert.WithRuleViolation` | plugin-build/src/test/kotlin/io/github/detekt/compiler/plugin/util/CompilerAssertions.kt:56-61 | passes, returning the same object, exactly when every named rule occurs among the violations; otherwise fails with the requested names and the violations found |
| `CompilerAssertions.PassCompilationExclusive` | plugin-build/src/test/kotlin/io/github/detekt/compiler/plugin/util/CompilerAssertions.kt:22-29 | an exit code other than `OK` and `COMPILATION_ERROR` fails both expectations, reporting `OK` as expected for `passCompilation(true)` and `COMPILATION_ERROR` for `passCompilation(false)`; no run passes both |
| `CompilerAssertions.PassDetektDichotomy` | plugin-build/src/test/kotlin/io/github/detekt/compiler/plugin/util/CompilerAssertions.kt:31-44 | with a non-empty block exactly one of `passDetekt(true)` and `passDetekt(false)` passes; with an empty block both fail with `MissingStatusLine`, which happens exactly when no run-start line comes at or before a status line |
| `CompilerAssertions.NoViolationsIsZeroViolations` | plugin-build/src/test/kotlin/io/github/detekt/compiler/plugin/util/CompilerAssertions.kt:46 | `withNoViolations()` and `withViolations(0)` give the same outcome on every run |
| `CompilerAssertions.RuleViolationIsSuperset` | plugin-build/src/test/kotlin/io/github/detekt/compiler/plugin/util/CompilerAssertions.kt:56-61 | `withRuleViolation` passes exactly when the set of requested names is a subset of the set of violations |
| `CompilerAssertions.RuleViolationSplits` | plugin-build/src/test/kotlin/io/github/detekt/compiler/plugin/util/CompilerAssertions.kt:56-61 | asking for two lists at once passes exactly when each passes alone, and asking for no names always passes |
| `CompilerAssertions.ChainIsConjunction` | plugin-build/src/test/kotlin/io/github/detekt/compiler/plugin/util/CompilerAssertions.kt:22-61 | a chain of the four checks passes exactly when each check passes on the original object, and it then yields that object |
| `DetektScenarios.LinesOfJoin` | plugin-build/src/test/kotlin/io/github/detekt/compiler/plugin/util/CompilerAssertions.kt:12 | a log made of lines without line breaks splits back into those lines |
| `DetektScenarios.OneViolationBlock` | plugin-build/src/test/kotlin/io/github/detekt/compiler/plugin/util/CompilerAssertions.kt:16-20 | a block of a marker line, one violation line and a status line reports exactly that rule, and its status is the status line's token |
| `DetektScenarios.QuietBlock` | plugin-build/src/test/kotlin/io/github/detekt/compiler/plugin/util/CompilerAssertions.kt:16-20 | a block of a marker line and a status line reports no violations, and its status is the status line's token |
| `DetektScenarios.FiveLineBlock` | plugin-build/src/test/kotlin/io/github/detekt/compiler/plugin/util/CompilerAssertions.kt:12-14 | for noise, marker, violation, status and noise lines, the run block is the three middle lines |
| `DetektScenarios.RunWithOneViolation` | plugin-build/src/test/kotlin/io/github/detekt/compiler/plugin/util/CompilerAssertions.kt:12-61 | on such a log, `withViolations(1)` and `withRuleViolation(rule)` pass and `withNoViolations()` fails with count 1; `passDetekt` passes for the status the line gives and fails with (actual, expected) for the other |
| `DetektScenarios.RunWithoutViolations` | plugin-build/src/test/kotlin/io/github/detekt/compiler/plugin/util/CompilerAssertions.kt:12-61 | on a log of just a marker line and a status line, `withNoViolations()` passes, `withViolations(1)` fails reporting 0 against 1, and `passDetekt` passes for the status the line gives |
| `DetektScenarios.LogWithoutRun` | plugin-build/src/test/kotlin/io/github/detekt/compiler/plugin/util/CompilerAssertions.kt:12-44 | on a log without a `Running detekt` line the block is empty, `passDetekt` fails with `MissingStatusLine` whatever it expects, and `withNoViolations()` passes |

## Left out

- Producing the `KotlinCompilation.Result` (compiling a snippet with the plugin) is not modelled. The result's exit code and message text are inputs.
- The AssertJ base class `AbstractObjectAssert` is not modelled. Its `failWithActualExpectedAndMessage` and `failWithMessage` throw an `AssertionError`; here they become a `Failed` value.
  - For `failWithActualExpectedAndMessage`, that value carries the same actual and expected data.
  - `failWithMessage` in `withRuleViolation` carries only a message. Its `MissingExpectedViolation` value carries the two lists the message prints: the requested rule names and the violations found.
- The human-readable failure message strings are not modelled: they are text built with string interpolation and carry no further logic.
- `build.gradle.kts` is not part of this model: it is build configuration.
- `KotlinText.ToBoolean`: case is folded for ASCII letters only. Java's `equalsIgnoreCase` folds all of Unicode, but no non-ASCII character folds to a letter of `true`, so the result is the same.
- `DetektScenarios.RunWithOneViolation`, `DetektScenarios.RunWithoutViolations`: they describe each line by its kind (marker, violation of a rule, status, noise) rather than by literal text. No literal log string is shown to have those kinds.
- `KotlinText.Positions` is a ghost set of positions, used only in contracts. The helper itself counts with `size`, which `KotlinText.FilterCount` connects to it.

# Simple Calculator acceptance harness — a Dafny model

The repository is a Selenium acceptance-test harness for a web calculator with
ten builds (Prototype 0 to build 9, builds 1 to 8 documented as defective).
This project models the parts of it that make decisions:

- the page object `CalculatorPage` as transitions over an abstract page state
  (`CalculatorPage.dfy`). The browser is reduced to what each bounded wait
  observes: absent, present, visible or clickable. The page is one snapshot
  of what the selected build shows, fixed for the whole test: controls never
  appear or disappear. Each operation returns the new state and the
  exception it raised, if any;
- the edge-case and validation test: the text normaliser `_normalize`, the
  numeric helpers, the verdict ladder (substring match, numeric match,
  empty-output exemption, failure) and the row flow (`EdgeCases.dfy`);
- the data-driven arithmetic test: the UI probe, the guarded interaction and
  the build-aware verdict ladder (`Arithmetic.dfy`);
- the Python string built-ins these rely on, restricted to ASCII: `lower`,
  `strip`, `split`, `in` and `str(int)` (`Text.dfy`). The shared types are in
  `Common.dfy`.

Python's `float()` is a parameter (`FloatParsing`): a predicate saying whether
`float(s)` succeeds and a relation saying whether two parsed values compare
equal. Nothing is assumed about that relation, not even reflexivity, because
`float("nan") != float("nan")`. The application's reaction to Calculate (the
alert it raises, the answer field, the page body) is part of the page state,
and the navigation timeouts of `open` are a parameter.

Two facts about the code are worth stating because they are easy to assume
otherwise:

- `_normalize` is not idempotent: normalising its own output can change it
  again (`EdgeCases.NormalizeNotIdempotentTrailingSpace`,
  `EdgeCases.NormalizeNotIdempotentZero`).
- The edge-case ladder has no exact-match step; an output equal to an option
  passes through the substring step (`EdgeCases.EdgeExactOptionPasses`).

## Model

| member | source | states |
|---|---|---|
| CalculatorPage.Open | src/pages/calculator_page.py:46-57 | one navigation, plus exactly one more when the first times out; a timeout on the second propagates; success needs the build selector visible; nothing but the action log changes |
| CalculatorPage.OpenConsultsTwoAttempts | src/pages/calculator_page.py:51-54 | navigation is attempted at most twice: the behaviour of a third attempt never matters |
| CalculatorPage.IsCalculatorComplete | src/pages/calculator_page.py:60-71 | true exactly when number1, number2 and the Calculate button are all present; a missing one gives false, not an error |
| CalculatorPage.SelectByValue | src/pages/calculator_page.py:74-78 | a timeout when the drop-down is not visible; NoSuchElement when no option has the value; otherwise that option is selected and logged; both drop-downs keep their visibility and options and every other control is unchanged |
| CalculatorPage.ChooseBuild | src/pages/calculator_page.py:74-78 | succeeds exactly when the selector is visible and offers `str(build)`, with no range check; it then selects exactly `str(build)`, logs that one selection, and the selection reads back as the build; a failure leaves the page unchanged |
| CalculatorPage.ChooseOperation | src/pages/calculator_page.py:95-107 | the same for the operation selector: exactly `str(op)` is selected and logged, for any integer whose decimal form is offered |
| CalculatorPage.SetNumbers | src/pages/calculator_page.py:80-93 | clears and types the operands verbatim, the first field before the second; a timeout on the second field leaves the first one filled and logged and the second one and its log untouched; no field changes visibility; only timeouts are raised |
| CalculatorPage.SetIntegerOnly | src/pages/calculator_page.py:109-117 | afterwards the box is checked exactly when `enabled`; at most one click, made exactly when the state had to change; a timeout leaves the page unchanged |
| CalculatorPage.SetIntegerOnlyIdempotent | src/pages/calculator_page.py:114-116 | a second call with the same argument makes no click and changes nothing |
| CalculatorPage.Calculate | src/pages/calculator_page.py:120-135 | clicks Calculate, then stores the alert text or None and accepts any alert; nothing else on the page changes |
| CalculatorPage.CalculateForgetsEarlierAlert | src/pages/calculator_page.py:128-133 | the stored alert text from an earlier calculation never survives a successful `calculate` |
| CalculatorPage.FirstPresent | src/pages/calculator_page.py:138-160 | the ordered fallback chain: nothing when every lookup fails, otherwise the first lookup that succeeds |
| CalculatorPage.ReadAnswer | src/pages/calculator_page.py:138-160 | a non-empty stored alert first, then the visible answer field as it is, then the stripped body, and "" when all fail |
| CalculatorPage.ReadAnswerReadsOnly | src/pages/calculator_page.py:138-160 | the answer read back depends only on the stored alert text, the answer field and the page body |
| CalculatorPage.ReadAnswerPrefersAlert | src/pages/calculator_page.py:147-148 | with a non-empty stored alert, neither the answer field nor the body affects the answer |
| CalculatorPage.ReadAnswerKeepsFieldWhitespace | src/pages/calculator_page.py:150-152 | witness: with no alert, a visible field holding ` 15 ` is read back as ` 15 `, spaces included; only the body fallback is stripped |
| Text.LowerSpec | tests/test_edge_cases_and_validation.py:23 | same length; each upper-case letter becomes its own lower-case form, every other character, whitespace included, stays in place |
| Text.TrimStartSpec | tests/test_edge_cases_and_validation.py:23 | the longest suffix that does not start with whitespace; only whitespace is dropped |
| Text.TrimEndSpec | tests/test_edge_cases_and_validation.py:23 | the longest prefix that does not end with whitespace; only whitespace is dropped |
| Text.StripSpec | tests/test_edge_cases_and_validation.py:23 | a slice with only whitespace outside it, neither starting nor ending with whitespace |
| Text.StripIdempotent | tests/test_edge_cases_and_validation.py:88 | stripping twice is stripping once |
| Text.LowerStripCommute | tests/test_edge_cases_and_validation.py:23 | lower-casing and stripping commute |
| Text.ContainsIffOccurs | tests/test_edge_cases_and_validation.py:92 | `needle in hay` holds exactly when the needle occurs at some position |
| Text.Split | tests/test_edge_cases_and_validation.py:88 | splitting on the pipe character gives at least one piece, and no piece contains the separator |
| Text.SplitCount | tests/test_edge_cases_and_validation.py:88 | a split has exactly one piece more than the text has separators |
| Text.JoinSplit | tests/test_edge_cases_and_validation.py:88 | joining the pieces with the separator gives back the input |
| Text.SplitJoin | tests/test_edge_cases_and_validation.py:88 | splitting a join of separator-free pieces gives back the pieces |
| Text.IntToStringRoundTrip | src/pages/calculator_page.py:77 | `str(n)` for an integer reads back as `n`, so selecting `str(build)` selects the build |
| Text.IntToStringInjective | src/pages/calculator_page.py:106 | distinct operation codes select distinct option values |
| EdgeCases.ReplaceZeroChars | tests/test_edge_cases_and_validation.py:24 | the replacement introduces no character but `0` |
| EdgeCases.ReplaceZeroLeavesNoZero | tests/test_edge_cases_and_validation.py:24 | no `zero` survives the replacement, not even across a replaced occurrence |
| EdgeCases.ReplaceZeroKeepsZeroFree | tests/test_edge_cases_and_validation.py:24 | text without `zero` is left unchanged |
| EdgeCases.ReplaceZeroFirst | tests/test_edge_cases_and_validation.py:24 | the first occurrence of `zero` becomes `0`, the text before it is kept and the replacement goes on after it |
| EdgeCases.ReplaceZeroExamples | tests/test_edge_cases_and_validation.py:24 | left-to-right, non-overlapping replacement: `zerozero`, `zzero`, `zezeroro` |
| EdgeCases.DropPunctuationChars | tests/test_edge_cases_and_validation.py:25 | exactly the characters other than `!`, `.` and `,` are kept |
| EdgeCases.DropPunctuationAppend | tests/test_edge_cases_and_validation.py:25 | punctuation is dropped piecewise: the result for a concatenation is the concatenation of the results |
| EdgeCases.CollapseWhitespaceNormalForm | tests/test_edge_cases_and_validation.py:26 | the non-whitespace characters come out unchanged and in their order; only plain spaces are added, never two in a row; only empty text collapses to "" |
| EdgeCases.CollapseRunBetween | tests/test_edge_cases_and_validation.py:26 | a whitespace run between two words becomes exactly one plain space |
| EdgeCases.CollapseFromNoSpace | tests/test_edge_cases_and_validation.py:26 | a prefix without whitespace passes through the rewrite unchanged and the rest is rewritten as if no run were open |
| EdgeCases.CollapseRunThen | tests/test_edge_cases_and_validation.py:26 | a whitespace run after text without whitespace becomes one plain space and the rest is collapsed on its own, which fixes the rewrite run by run |
| EdgeCases.Normalize | tests/test_edge_cases_and_validation.py:18-27 | `_normalize`: lower-case and strip, then replace `zero`, then drop `!.,`, then collapse whitespace, in that order; what the result satisfies is stated by the lemmas below |
| EdgeCases.NormalizeNormalForm | tests/test_edge_cases_and_validation.py:18-27 | the normal form has no upper-case letter, no `!`, `.` or `,`, only plain spaces, and never two in a row |
| EdgeCases.NormalizeKeepsNormalForm | tests/test_edge_cases_and_validation.py:18-27 | text already in normal form, stripped and without `zero`, is a fixed point |
| EdgeCases.NormalizeIgnoresSurroundingSpace | tests/test_edge_cases_and_validation.py:23 | surrounding whitespace never changes the normal form |
| EdgeCases.NormalizeNotIdempotentTrailingSpace | tests/test_edge_cases_and_validation.py:23-26 | `a !` normalises to `a `, whose normal form is `a`: stripping runs before punctuation goes |
| EdgeCases.NormalizeNotIdempotentZero | tests/test_edge_cases_and_validation.py:24-25 | `ze.ro` normalises to `zero`, whose normal form is `0`: the replacement runs before punctuation goes |
| EdgeCases.NormalizeEmptyIff | tests/test_edge_cases_and_validation.py:18-27 | the normal form is empty exactly when the stripped text is only `!`, `.` and `,` |
| Common.NumbersEqualOnlyBetweenNumbers | tests/test_edge_cases_and_validation.py:30-44 | `_numbers_equal` holds only when `_is_number` accepts both strings; a string `float()` rejects makes it false |
| EdgeCases.ExpectedOptions | tests/test_edge_cases_and_validation.py:88 | one option more than the raw text has `|` characters; every option is already stripped and contains no `|` |
| EdgeCases.ExpectedOptionsAppend | tests/test_edge_cases_and_validation.py:88 | the options of `e1`, a pipe, then `e2` are those of `e1` followed by those of `e2` |
| EdgeCases.EdgeVerdict | tests/test_edge_cases_and_validation.py:86-111 | PASS exactly on a substring or numeric match; XFAIL exactly when neither holds, the output normalises to "", and some option mentions an error or asks for a number; FAIL otherwise |
| EdgeCases.EdgeExactOptionPasses | tests/test_edge_cases_and_validation.py:88-93 | an output equal to a stripped option passes |
| EdgeCases.EdgeEmptyOptionPasses | tests/test_edge_cases_and_validation.py:88-93 | an option that normalises to "" accepts every output |
| EdgeCases.EdgeTrailingSeparatorPasses | tests/test_edge_cases_and_validation.py:88-93 | an expectation ending in a pipe accepts every output |
| EdgeCases.EdgeAlternativesDisjunctive | tests/test_edge_cases_and_validation.py:88-99 | output passes against `e1` and `e2` joined by a pipe exactly when it passes against `e1` or against `e2` |
| EdgeCases.EdgeXFailOnlyForBlankOutput | tests/test_edge_cases_and_validation.py:101-105 | an expected defect is declared only for output that is blank or punctuation once stripped |
| EdgeCases.EdgeSilentValidationIsExpectedDefect | tests/test_edge_cases_and_validation.py:101-105 | empty output against one expected validation message is XFAIL, not FAIL |
| EdgeCases.IntegerOnlyFlag | tests/test_edge_cases_and_validation.py:70 | the flag is set exactly when the field has four characters that lower-case to `true`, so any mix of cases counts and nothing else does |
| EdgeCases.DriveRow | tests/test_edge_cases_and_validation.py:73-78 | succeeds exactly when the build selector, both operand fields and the operation selector are visible, both codes are offered and, unless the operation is Concatenate, the toggle is clickable; then exactly `str(build)` and `str(op)` are selected, the operands are typed and (except for Concatenate) the toggle is as the row asks; for Concatenate the toggle is never clicked; the answer field, the body and the stored alert are left as they were |
| EdgeCases.RunEdgeCase | tests/test_edge_cases_and_validation.py:66-111 | a verdict is reached exactly when the flow and Calculate succeed, and it is the ladder's verdict on the answer the starting page shows once Calculate stores its alert; any exception ends the test; Concatenate never touches the toggle |
| EdgeCases.EdgeVerdictIgnoresBuild | tests/test_edge_cases_and_validation.py:74 | the build only selects the build: the same output gives the same verdict on any build |
| Arithmetic.AllBuilds | tests/test_data_driven_arithmetic.py:23 | the builds are 0 to 9, in order |
| Arithmetic.Probe | tests/test_data_driven_arithmetic.py:49-53 | passes only when number1, number2 and Calculate are all present; otherwise raises a timeout |
| Arithmetic.ProbeAgreesWithCompleteness | tests/test_data_driven_arithmetic.py:49-53 | the probe accepts exactly the pages the page object calls complete |
| Arithmetic.Interact | tests/test_data_driven_arithmetic.py:64-70 | succeeds exactly when both fields and the operation selector are visible, `str(op)` is offered and Calculate is clickable; then the operands are typed and exactly `str(op)` is selected; the toggle is never touched |
| Arithmetic.InteractRequiresCompleteUi | tests/test_data_driven_arithmetic.py:49-70 | on a page whose controls do not change between the probe and the interaction, a page on which the interaction can succeed passes the probe |
| Arithmetic.CompareOutput | tests/test_data_driven_arithmetic.py:83-106 | PASS exactly on an exact or numeric match, for every build; a mismatch is XFAIL exactly on builds 1 to 8 and FAIL on the others |
| Arithmetic.RunArithmetic | tests/test_data_driven_arithmetic.py:40-106 | raises exactly when selecting the build fails, leaving the page as it was; a missing core control after that is XFAIL with nothing else done; a failed interaction is XFAIL; a completed interaction gets the comparison of the answer read back; FAIL only outside builds 1 to 8; the toggle is never touched and only Calculate is clicked |
| Arithmetic.ArithmeticXFailIff | tests/test_data_driven_arithmetic.py:45-106 | a run is XFAIL exactly when the build was selected and then a core control was missing, the interaction failed, or the answer mismatched on one of builds 1 to 8 |
| Arithmetic.IncompleteUiIsXFailBeforeInteraction | tests/test_data_driven_arithmetic.py:45-61 | once the build is selected, a missing core control is XFAIL and nothing but the build selection has been done |
| Arithmetic.ComparedAfterFullInteraction | tests/test_data_driven_arithmetic.py:63-106 | a verdict other than XFAIL comes from comparing the answer read back after the UI was complete, the operands were typed and exactly `str(build)` and `str(op)` were selected |
| Arithmetic.KnownDefective | tests/test_data_driven_arithmetic.py:96 | `build in range(1, 9)`: builds 1 to 8 are the ones whose mismatches are excused |
| Arithmetic.StrictBuilds | tests/test_data_driven_arithmetic.py:96 | of the builds 0 to 9, only the prototype and build 9 are compared strictly |
| Arithmetic.CorrectAnswerPassesOnEveryBuild | tests/test_data_driven_arithmetic.py:84-100 | a correct answer passes on every build and is never excused |
| Arithmetic.BuildOnlyExcusesMismatches | tests/test_data_driven_arithmetic.py:96-106 | a mismatch is XFAIL on a defective build exactly when it is FAIL on a strict one |
| Arithmetic.ExactMatchCoversNonNumbers | tests/test_data_driven_arithmetic.py:84-93 | equal strings pass even when they are not equal as numbers, a non-number or NaN |
| Arithmetic.StrictBuildFailsOnlyOnMismatch | tests/test_data_driven_arithmetic.py:84-106 | on a strict build, FAIL means the answer matches the expectation neither as text nor as a number |

## Left out

- The page is a single snapshot: the page as the selected build shows it, fixed for the whole test. No action makes a control appear or disappear, and every wait on an element sees the same outcome whatever its time limit. In the program the probe waits 2 seconds for presence and `set_numbers` waits 5 seconds for visibility, so a control that appears late can be excused by the probe although the interaction would have succeeded; the model does not capture that.
- Selenium timing: every bounded wait is reduced to its outcome, an element being absent, present, visible or clickable. The waits in `src/utils/waits.py` and their time limits are not modelled.
- Creating the driver, environment settings, Allure evidence, the session fixtures and the test runner script. They are I/O and reporting, and they make no decisions.
- The build regression and smoke tests. They are plain equality or non-empty assertions.
- Python's `float()`. It is the `FloatParsing` parameter; the numbers themselves are not modelled.
- Unicode. Case mapping and whitespace are restricted to ASCII.
- `get_attribute("value")` returning None. The answer field's value is a string.
- Reading the data files. This covers the CSV, the JSON, `int()` on the row's build and operation, and `str()` on the JSON expectation. A row arrives already converted.
- Exceptions other than `TimeoutException` and `NoSuchElementException`. This includes stale elements.
- The calculator application itself. Its answer, alert and body text are part of the page state.

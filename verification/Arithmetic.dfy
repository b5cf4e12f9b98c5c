/**
 The data-driven arithmetic scenario (`test_arithmetic_all_builds`): every
 base case is run against every build of the application. A build whose core
 controls are missing, or whose interaction fails, ends as an expected defect;
 otherwise the output is compared exactly, then numerically, and a mismatch is
 excused only on the builds documented as defective (1 to 8).
 */
module Arithmetic {
  import opened Common
  import opened Text
  import opened CalculatorPage

  /** The builds the scenario is parametrised over: Prototype (0) through 9. */
  function AllBuilds(): (builds: seq<int>)
    ensures |builds| == 10
    ensures forall i :: 0 <= i < |builds| ==> builds[i] == i
  {
    seq(10, i => i)
  }

  /** `build in range(1, 9)`: the builds documented to contain defects. */
  predicate KnownDefective(build: int) {
    1 <= build < 9
  }

  /** One entry of the arithmetic data: operation code, operands as typed, and
      the expected output already rendered as a string. */
  datatype Case = Case(op: int, a: string, b: string, expected: string)

  /**
   The quick probe for a missing UI: three presence waits, for the first
   operand, the second operand and the Calculate button, in that order. The
   first one that finds nothing raises `TimeoutException`.
   */
  function Probe(p: Page): (r: Option<WebError>)
    ensures r.Some? ==> r == Some(Timeout)
    ensures r.None? ==> p.number1.presence.Found() && p.number2.presence.Found()
    ensures r.None? ==> p.calculateButton.Found()
  {
    if !p.number1.presence.Found() then Some(Timeout)
    else if !p.number2.presence.Found() then Some(Timeout)
    else if !p.calculateButton.Found() then Some(Timeout)
    else None
  }

  /** The probe of the scenario and the page object's own completeness check
      accept exactly the same pages. */
  lemma ProbeAgreesWithCompleteness(p: Page)
    ensures Probe(p).None? <==> IsCalculatorComplete(p)
  {
    assert Number1 in CoreControls && Number2 in CoreControls && CalculateButton in CoreControls;
  }

  /**
   The interaction flow: `set_numbers(a, b)`, then `choose_operation(op)`,
   then `calculate()`, stopping at the first exception. The integer-only
   checkbox is left as it is.
   */
  function Interact(p: Page, c: Case): (r: Step)
    ensures r.Ok() <==> (&& p.number1.presence.Visible() && p.number2.presence.Visible()
                         && p.operation.presence.Visible() && IntToString(c.op) in p.operation.values
                         && p.calculateButton.Clickable())
    ensures r.Ok() ==> r.page.number1.value == c.a && r.page.number2.value == c.b
    ensures r.Ok() ==> r.page.operation.selected == IntToString(c.op)
    ensures r.Ok() ==> ParseInt(r.page.operation.selected) == Some(c.op)
    ensures r.Ok() ==> r.page.lastAlertText == p.alertOnCalculate
    ensures r.page.integerOnly == p.integerOnly && r.page.buildSelect == p.buildSelect
    ensures r.page.answer == p.answer && r.page.body == p.body
    ensures ClicksOnly(p, r.page, {CalculateButton})
  {
    var typed := SetNumbers(p, c.a, c.b);
    if !typed.Ok() then typed
    else
      var operated := ChooseOperation(typed.page, c.op);
      ClicksOnlyTrans(p, typed.page, operated.page, {}, {});
      if !operated.Ok() then operated
      else
        var calculated := Calculate(operated.page);
        ClicksOnlyTrans(p, operated.page, calculated.page, {}, {CalculateButton});
        calculated
  }

  /** On a page whose controls do not change between the probe and the
      interaction, a page on which the interaction can succeed passes the
      probe: the probe never turns such a build into an expected defect. */
  lemma InteractRequiresCompleteUi(p: Page, c: Case)
    requires Interact(p, c).Ok()
    ensures Probe(p).None?
    ensures IsCalculatorComplete(p)
  {
    ProbeAgreesWithCompleteness(p);
  }

  /**
   Steps 5 to 8: exact string match, then numeric match, then the
   build-aware excuse. The output passes exactly when it equals the
   expectation as a string or as a number; a mismatch is an expected defect
   exactly on the defective builds and a failure everywhere else.
   */
  function CompareOutput(build: int, actual: string, expected: string, fp: FloatParsing): (v: Verdict)
    ensures v == Pass <==> actual == expected || fp.NumbersEqual(actual, expected)
    ensures v == XFail <==> v != Pass && KnownDefective(build)
    ensures v == Fail <==> v != Pass && !KnownDefective(build)
  {
    if actual == expected then Pass
    else if fp.NumbersEqual(actual, expected) then Pass
    else if KnownDefective(build) then XFail
    else Fail
  }

  /**
   `test_arithmetic_all_builds(calc, build, case)`. Selecting the build is not
   guarded, so its exception ends the test as raised. A missing core control
   ends it as an expected defect before anything is typed; so does a timeout
   or a missing option during the interaction. Otherwise the answer is read
   and compared.
   */
  function RunArithmetic(p: Page, build: int, c: Case, fp: FloatParsing): (run: Run)
    ensures run.result.Raised?
      <==> !(p.buildSelect.presence.Visible() && IntToString(build) in p.buildSelect.values)
    ensures run.result.Raised? ==> run.page == p
    ensures var chosen := ChooseBuild(p, build);
      chosen.Ok() && !IsCalculatorComplete(p) ==> run == Run(chosen.page, Classified(XFail))
    ensures var chosen := ChooseBuild(p, build);
      chosen.Ok() && IsCalculatorComplete(p) && !Interact(chosen.page, c).Ok()
      ==> run.result == Classified(XFail)
    ensures var chosen := ChooseBuild(p, build);
      chosen.Ok() && Interact(chosen.page, c).Ok()
      ==> run.result == Classified(CompareOutput(build, ReadAnswer(Interact(chosen.page, c).page), c.expected, fp))
    ensures run.result == Classified(Fail) ==> !KnownDefective(build)
    ensures run.page.integerOnly == p.integerOnly
    ensures ClicksOnly(p, run.page, {CalculateButton})
  {
    var chosen := ChooseBuild(p, build);
    ProbeAgreesWithCompleteness(p);
    ProbeAgreesWithCompleteness(chosen.page);
    if !chosen.Ok() then Run(chosen.page, Raised(chosen.error.value))
    else if Probe(chosen.page).Some? then
      Run(chosen.page, Classified(XFail))
    else
      var done := Interact(chosen.page, c);
      ClicksOnlyTrans(p, chosen.page, done.page, {}, {CalculateButton});
      if !done.Ok() then Run(done.page, Classified(XFail))
      else Run(done.page, Classified(CompareOutput(build, ReadAnswer(done.page), c.expected, fp)))
  }

  /**
   When a run ends as an expected defect: the build was selected and then a
   core control was missing, the interaction failed, or the answer read back
   was a mismatch on one of the defective builds.
   */
  lemma ArithmeticXFailIff(p: Page, build: int, c: Case, fp: FloatParsing)
    ensures var chosen := ChooseBuild(p, build);
      var done := Interact(chosen.page, c);
      RunArithmetic(p, build, c, fp).result == Classified(XFail)
      <==> chosen.Ok()
           && (|| !IsCalculatorComplete(p)
               || !done.Ok()
               || (&& KnownDefective(build)
                   && ReadAnswer(done.page) != c.expected
                   && !fp.NumbersEqual(ReadAnswer(done.page), c.expected)))
  {
  }

  /** A build with a core control missing is an expected defect, and nothing
      is done after selecting the build. */
  lemma IncompleteUiIsXFailBeforeInteraction(p: Page, build: int, c: Case, fp: FloatParsing)
    requires p.buildSelect.presence.Visible() && IntToString(build) in p.buildSelect.values
    requires !IsCalculatorComplete(p)
    ensures var run := RunArithmetic(p, build, c, fp);
      && run.result == Classified(XFail)
      && run.page.actions == p.actions + [SelectValue(BuildSelect, IntToString(build))]
  {
    var chosen := ChooseBuild(p, build);
    ProbeAgreesWithCompleteness(chosen.page);
  }

  /** A verdict other than an expected defect comes from comparing the answer
      read back after the whole interaction went through as the case asks. */
  lemma ComparedAfterFullInteraction(p: Page, build: int, c: Case, fp: FloatParsing)
    requires RunArithmetic(p, build, c, fp).result.Classified?
    requires RunArithmetic(p, build, c, fp).result.verdict != XFail
    ensures var run := RunArithmetic(p, build, c, fp);
      && IsCalculatorComplete(p)
      && run.page.number1.value == c.a && run.page.number2.value == c.b
      && run.page.buildSelect.selected == IntToString(build)
      && run.page.operation.selected == IntToString(c.op)
      && ParseInt(run.page.buildSelect.selected) == Some(build)
      && ParseInt(run.page.operation.selected) == Some(c.op)
      && run.page.lastAlertText == p.alertOnCalculate
      && run.result.verdict == CompareOutput(build, ReadAnswer(run.page), c.expected, fp)
  {
    var chosen := ChooseBuild(p, build);
    ProbeAgreesWithCompleteness(chosen.page);
    ProbeAgreesWithCompleteness(p);
  }

  /** The builds range over 0 to 9, and exactly the two ends, the prototype and
      build 9, are held to a strict comparison. */
  lemma StrictBuilds()
    ensures forall b :: b in AllBuilds() <==> 0 <= b <= 9
    ensures forall b :: b in AllBuilds() && !KnownDefective(b) ==> b == 0 || b == 9
    ensures !KnownDefective(0) && !KnownDefective(9)
  {
    var builds := AllBuilds();
    forall b | 0 <= b <= 9
      ensures b in builds
    {
      assert builds[b] == b;
    }
  }

  /** A correct answer is never excused: when the output matches, the
      comparison passes on every build, defective or not. */
  lemma CorrectAnswerPassesOnEveryBuild(b1: int, b2: int, actual: string, expected: string, fp: FloatParsing)
    requires CompareOutput(b1, actual, expected, fp) == Pass
    ensures CompareOutput(b2, actual, expected, fp) == Pass
  {
  }

  /** The build only decides how a mismatch is reported: a mismatch that is an
      expected defect on a defective build is a failure on a strict one. */
  lemma BuildOnlyExcusesMismatches(defective: int, strict: int, actual: string, expected: string, fp: FloatParsing)
    requires KnownDefective(defective) && !KnownDefective(strict)
    ensures CompareOutput(defective, actual, expected, fp) == XFail
      <==> CompareOutput(strict, actual, expected, fp) == Fail
  {
  }

  /**
   The exact-match step is not subsumed by the numeric one: an output that is
   not a number (a concatenation, say) passes only because it equals the
   expected string, and `NaN` rendered identically passes although it is not
   numerically equal to itself.
   */
  lemma ExactMatchCoversNonNumbers(build: int, s: string, fp: FloatParsing)
    requires !fp.NumbersEqual(s, s)
    ensures CompareOutput(build, s, s, fp) == Pass
  {
  }

  /**
   On a strict build, a run that gets as far as the comparison passes exactly
   when the answer read back matches the expectation; a failing verdict is
   always a genuine mismatch.
   */
  lemma StrictBuildFailsOnlyOnMismatch(p: Page, build: int, c: Case, fp: FloatParsing)
    requires !KnownDefective(build)
    requires RunArithmetic(p, build, c, fp).result == Classified(Fail)
    ensures var page := RunArithmetic(p, build, c, fp).page;
      ReadAnswer(page) != c.expected && !fp.NumbersEqual(ReadAnswer(page), c.expected)
  {
  }
}

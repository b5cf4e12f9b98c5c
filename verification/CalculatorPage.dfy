/**
 The page object of the calculator (`CalculatorPage`) as transitions over an
 abstract page state. The browser is reduced to what the page object can
 observe: whether each element is absent, present, visible or clickable when
 it asks (the outcome of every bounded wait), the values the inputs, drop-downs
 and checkbox hold, the answer field, the page body, and the alert the
 application raises when Calculate is clicked. Every operation returns the new
 state together with the exception it raised, if any, since a Python method
 that raises part-way leaves its earlier effects in place.
 */
module CalculatorPage {
  import opened Common
  import Text

  /** How an element stands when the page object looks for it. */
  datatype Presence = Absent | Present(visible: bool, enabled: bool) {

    /** `find_element` (and a presence wait) succeeds. */
    predicate Found() {
      Present?
    }

    /** `wait_visible` succeeds within its bound. */
    predicate Visible() {
      Present? && visible
    }

    /** `wait_clickable` succeeds within its bound: visible and enabled. */
    predicate Clickable() {
      Present? && visible && enabled
    }
  }

  /** The locators of the page object. */
  datatype Control = BuildSelect | Number1 | Number2 | OperationSelect | IntegerOnly | CalculateButton

  /** What the page object does to the browser, in order. */
  datatype Action =
    | Navigate(url: string)
    | SelectValue(control: Control, value: string)
    | Clear(control: Control)
    | SendKeys(control: Control, text: string)
    | Click(control: Control)
    | AcceptAlert

  /** A `<select>`: the option values it offers and the one selected. */
  datatype Dropdown = Dropdown(presence: Presence, values: set<string>, selected: string)

  /** A text input; `value` is what `get_attribute("value")` returns. */
  datatype TextField = TextField(presence: Presence, value: string)

  datatype Checkbox = Checkbox(presence: Presence, checked: bool)

  /**
   The page as the page object sees it. `body` is the text of `<body>`, or
   None when looking it up fails. `alertOnCalculate` is the alert the
   application raises within the alert wait when Calculate is clicked (None:
   no alert). `lastAlertText` is the page object's own `_last_alert_text`.
   `actions` records every interaction performed so far.
   */
  datatype Page = Page(
    buildSelect: Dropdown,
    number1: TextField,
    number2: TextField,
    operation: Dropdown,
    integerOnly: Checkbox,
    calculateButton: Presence,
    answer: TextField,
    body: Option<string>,
    alertOnCalculate: Option<string>,
    lastAlertText: Option<string>,
    actions: seq<Action>)

  /** The state after an operation, and the exception it raised, if any. */
  datatype Step = Step(page: Page, error: Option<WebError>) {
    predicate Ok() {
      error.None?
    }
  }

  /** How a test invocation ended, with the page it left behind. */
  datatype Run = Run(page: Page, result: TestResult)

  function PresenceOf(p: Page, c: Control): Presence {
    match c
    case BuildSelect => p.buildSelect.presence
    case Number1 => p.number1.presence
    case Number2 => p.number2.presence
    case OperationSelect => p.operation.presence
    case IntegerOnly => p.integerOnly.presence
    case CalculateButton => p.calculateButton
  }

  /** `driver.find_element(locator)`: raises `NoSuchElementException` when the
      element is absent. */
  function FindElement(p: Page, c: Control): Option<WebError> {
    if PresenceOf(p, c).Found() then None else Some(NoSuchElement)
  }

  /**
   Every element of `q` not named in `touched` is as in `p`, and so are the
   answer field, the body and the application's alert; the interactions of `p`
   are a prefix of those of `q`.
   */
  predicate OnlyTouched(p: Page, q: Page, touched: set<Control>) {
    && (BuildSelect !in touched ==> q.buildSelect == p.buildSelect)
    && (Number1 !in touched ==> q.number1 == p.number1)
    && (Number2 !in touched ==> q.number2 == p.number2)
    && (OperationSelect !in touched ==> q.operation == p.operation)
    && (IntegerOnly !in touched ==> q.integerOnly == p.integerOnly)
    && q.calculateButton == p.calculateButton
    && q.answer == p.answer
    && q.body == p.body
    && q.alertOnCalculate == p.alertOnCalculate
    && p.actions <= q.actions
  }

  /** `q` extends the interactions of `p`, and every click among the new ones
      is on a control in `clicked`. */
  predicate ClicksOnly(p: Page, q: Page, clicked: set<Control>) {
    p.actions <= q.actions
    && forall a :: a in q.actions[|p.actions|..] && a.Click? ==> a.control in clicked
  }

  /** Click frames compose along a sequence of operations. */
  lemma ClicksOnlyTrans(p: Page, q: Page, r: Page, c1: set<Control>, c2: set<Control>)
    requires ClicksOnly(p, q, c1) && ClicksOnly(q, r, c2)
    ensures ClicksOnly(p, r, c1 + c2)
  {
    assert r.actions[|p.actions|..] == q.actions[|p.actions|..] + r.actions[|q.actions|..];
  }

  // ---------------------------------------------------------------------------
  // Navigation

  /**
   `open(base_url)`. `timesOut(k)` says whether the k-th call of
   `driver.get(base_url)` (counting from 0) raises `TimeoutException`. The
   first timeout is absorbed by one more call; a timeout on that second call
   propagates. Once loaded, the build selector must become visible.
   */
  function Open(p: Page, url: string, timesOut: nat -> bool): (r: Step)
    ensures p.actions <= r.page.actions
    ensures 1 <= |r.page.actions| - |p.actions| <= 2
    ensures forall k :: |p.actions| <= k < |r.page.actions| ==> r.page.actions[k] == Navigate(url)
    ensures |r.page.actions| - |p.actions| == 2 <==> timesOut(0)
    ensures r.error.Some? ==> r.error == Some(Timeout)
    ensures r.Ok() <==> !(timesOut(0) && timesOut(1)) && p.buildSelect.presence.Visible()
    ensures r.page == p.(actions := r.page.actions)
  {
    var first := p.(actions := p.actions + [Navigate(url)]);
    var loaded :=
      if !timesOut(0) then Step(first, None)
      else
        var second := first.(actions := first.actions + [Navigate(url)]);
        if timesOut(1) then Step(second, Some(Timeout)) else Step(second, None);
    if !loaded.Ok() then loaded
    else if !loaded.page.buildSelect.presence.Visible() then Step(loaded.page, Some(Timeout))
    else loaded
  }

  /** Navigation is attempted at most twice: how `driver.get` would behave on a
      third call or later never matters. */
  lemma OpenConsultsTwoAttempts(p: Page, url: string, f: nat -> bool, g: nat -> bool)
    requires f(0) == g(0) && f(1) == g(1)
    ensures Open(p, url, f) == Open(p, url, g)
  {
  }

  // ---------------------------------------------------------------------------
  // Probing

  /** The controls without which no calculation can be driven. */
  const CoreControls: seq<Control> := [Number1, Number2, CalculateButton]

  /**
   `is_calculator_complete()`: looks the core controls up in turn; the first
   `NoSuchElementException` becomes false instead of propagating. Its result
   says exactly whether all three are present (visibility is not required).
   */
  function IsCalculatorComplete(p: Page): (r: bool)
    ensures r <==> forall c :: c in CoreControls ==> PresenceOf(p, c).Found()
  {
    if FindElement(p, Number1).Some? then false
    else if FindElement(p, Number2).Some? then false
    else if FindElement(p, CalculateButton).Some? then false
    else true
  }

  // ---------------------------------------------------------------------------
  // Interactions

  /** `Select(wait_visible(...)).select_by_value(value)` on the drop-down `c`:
      a timeout when it is not visible, `NoSuchElementException` when no
      option carries `value`. */
  function SelectByValue(p: Page, c: Control, value: string): (r: Step)
    requires c == BuildSelect || c == OperationSelect
    ensures r.Ok() <==> (PresenceOf(p, c).Visible()
                         && value in (if c == BuildSelect then p.buildSelect else p.operation).values)
    ensures !PresenceOf(p, c).Visible() ==> r == Step(p, Some(Timeout))
    ensures PresenceOf(p, c).Visible() && !r.Ok() ==> r == Step(p, Some(NoSuchElement))
    ensures r.Ok() ==> (if c == BuildSelect then r.page.buildSelect else r.page.operation).selected == value
    ensures r.Ok() ==> r.page.actions == p.actions + [SelectValue(c, value)]
    ensures r.page.buildSelect.presence == p.buildSelect.presence && r.page.buildSelect.values == p.buildSelect.values
    ensures r.page.operation.presence == p.operation.presence && r.page.operation.values == p.operation.values
    ensures OnlyTouched(p, r.page, {c}) && r.page.lastAlertText == p.lastAlertText
    ensures ClicksOnly(p, r.page, {})
  {
    var d := if c == BuildSelect then p.buildSelect else p.operation;
    if !d.presence.Visible() then Step(p, Some(Timeout))
    else if value !in d.values then Step(p, Some(NoSuchElement))
    else
      var d' := d.(selected := value);
      var q := if c == BuildSelect then p.(buildSelect := d') else p.(operation := d');
      Step(q.(actions := p.actions + [SelectValue(c, value)]), None)
  }

  /**
   `choose_build(build_value)`: selects the option whose value is
   `str(build_value)`. Any integer whose decimal form the drop-down offers is
   accepted; there is no range check. The selected value reads back as the
   requested build.
   */
  function ChooseBuild(p: Page, build: int): (r: Step)
    ensures r.Ok() <==> p.buildSelect.presence.Visible() && Text.IntToString(build) in p.buildSelect.values
    ensures r.Ok() ==> r.page.buildSelect.selected == Text.IntToString(build)
    ensures r.Ok() ==> r.page.actions == p.actions + [SelectValue(BuildSelect, Text.IntToString(build))]
    ensures r.Ok() ==> Text.ParseInt(r.page.buildSelect.selected) == Some(build)
    ensures !r.Ok() ==> r.page == p
    ensures r.page.buildSelect.presence == p.buildSelect.presence && r.page.buildSelect.values == p.buildSelect.values
    ensures OnlyTouched(p, r.page, {BuildSelect}) && r.page.lastAlertText == p.lastAlertText
    ensures ClicksOnly(p, r.page, {})
  {
    Text.IntToStringRoundTrip(build);
    SelectByValue(p, BuildSelect, Text.IntToString(build))
  }

  /**
   `choose_operation(op_value)`: selects the option whose value is
   `str(op_value)`, with no check that it is one of the five known codes.
   */
  function ChooseOperation(p: Page, op: int): (r: Step)
    ensures r.Ok() <==> p.operation.presence.Visible() && Text.IntToString(op) in p.operation.values
    ensures r.Ok() ==> r.page.operation.selected == Text.IntToString(op)
    ensures r.Ok() ==> r.page.actions == p.actions + [SelectValue(OperationSelect, Text.IntToString(op))]
    ensures r.Ok() ==> Text.ParseInt(r.page.operation.selected) == Some(op)
    ensures !r.Ok() ==> r.page == p
    ensures r.page.operation.presence == p.operation.presence && r.page.operation.values == p.operation.values
    ensures OnlyTouched(p, r.page, {OperationSelect}) && r.page.lastAlertText == p.lastAlertText
    ensures ClicksOnly(p, r.page, {})
  {
    Text.IntToStringRoundTrip(op);
    SelectByValue(p, OperationSelect, Text.IntToString(op))
  }

  /**
   `set_numbers(a, b)`: clears and types each operand into its field, the
   first before waiting for the second. The operands go to the browser as the
   given strings, unparsed. A timeout on the second field leaves the first one
   already filled.
   */
  function SetNumbers(p: Page, a: string, b: string): (r: Step)
    ensures r.Ok() <==> p.number1.presence.Visible() && p.number2.presence.Visible()
    ensures r.error.Some? ==> r.error == Some(Timeout)
    ensures !p.number1.presence.Visible() ==> r.page == p
    ensures p.number1.presence.Visible() ==> r.page.number1.value == a
    ensures r.Ok() ==> r.page.number2.value == b
    ensures !r.Ok() ==> r.page.number2 == p.number2
    ensures r.page.number1.presence == p.number1.presence && r.page.number2.presence == p.number2.presence
    ensures p.number1.presence.Visible() && !r.Ok()
      ==> r.page.actions == p.actions + [Clear(Number1), SendKeys(Number1, a)]
    ensures r.Ok() ==> (r.page.actions
                        == p.actions + [Clear(Number1), SendKeys(Number1, a), Clear(Number2), SendKeys(Number2, b)])
    ensures OnlyTouched(p, r.page, {Number1, Number2}) && r.page.lastAlertText == p.lastAlertText
    ensures ClicksOnly(p, r.page, {})
  {
    if !p.number1.presence.Visible() then Step(p, Some(Timeout))
    else
      var p1 := p.(number1 := p.number1.(value := a),
                   actions := p.actions + [Clear(Number1), SendKeys(Number1, a)]);
      if !p1.number2.presence.Visible() then Step(p1, Some(Timeout))
      else
        Step(p1.(number2 := p1.number2.(value := b),
                 actions := p1.actions + [Clear(Number2), SendKeys(Number2, b)]), None)
  }

  /**
   `set_integer_only(enabled)`: waits for the checkbox to be clickable and
   clicks it only when its state differs from `enabled` (a click toggles it).
   Afterwards the box is checked exactly when `enabled`, after at most one
   click, and a click happened exactly when the state had to change.
   */
  function SetIntegerOnly(p: Page, enabled: bool): (r: Step)
    ensures r.Ok() <==> p.integerOnly.presence.Clickable()
    ensures !r.Ok() ==> r == Step(p, Some(Timeout))
    ensures r.Ok() ==> r.page.integerOnly.checked == enabled
    ensures r.page.integerOnly.presence == p.integerOnly.presence
    ensures |r.page.actions| <= |p.actions| + 1
    ensures r.page.actions != p.actions <==> r.Ok() && p.integerOnly.checked != enabled
    ensures r.page.actions != p.actions ==> r.page.actions == p.actions + [Click(IntegerOnly)]
    ensures OnlyTouched(p, r.page, {IntegerOnly}) && r.page.lastAlertText == p.lastAlertText
    ensures ClicksOnly(p, r.page, {IntegerOnly})
  {
    if !p.integerOnly.presence.Clickable() then Step(p, Some(Timeout))
    else if p.integerOnly.checked != enabled then
      Step(p.(integerOnly := p.integerOnly.(checked := !p.integerOnly.checked),
              actions := p.actions + [Click(IntegerOnly)]), None)
    else Step(p, None)
  }

  /** Setting the checkbox twice to the same state is the same as setting it
      once: the second call clicks nothing and changes nothing. */
  lemma SetIntegerOnlyIdempotent(p: Page, enabled: bool)
    ensures var once := SetIntegerOnly(p, enabled);
      SetIntegerOnly(once.page, enabled) == Step(once.page, once.error)
  {
  }

  /**
   `calculate()`: waits for the Calculate button to be clickable and clicks
   it; then an alert raised by the application is read and accepted, and
   `_last_alert_text` becomes its text, or None when no alert comes. Every
   successful call overwrites the stored text, so nothing from an earlier
   calculation survives; a timeout on the button leaves the page untouched.
   */
  function Calculate(p: Page): (r: Step)
    ensures r.Ok() <==> p.calculateButton.Clickable()
    ensures !r.Ok() ==> r == Step(p, Some(Timeout))
    ensures r.Ok() ==> r.page.lastAlertText == p.alertOnCalculate
    ensures r.Ok() ==> (r.page.actions == p.actions + [Click(CalculateButton)]
                                           + (if p.alertOnCalculate.Some? then [AcceptAlert] else []))
    ensures OnlyTouched(p, r.page, {})
    ensures ClicksOnly(p, r.page, {CalculateButton})
  {
    if !p.calculateButton.Clickable() then Step(p, Some(Timeout))
    else
      var clicked := p.actions + [Click(CalculateButton)];
      match p.alertOnCalculate
      case Some(text) =>
        Step(p.(lastAlertText := Some(text), actions := clicked + [AcceptAlert]), None)
      case None =>
        Step(p.(lastAlertText := None, actions := clicked), None)
  }

  /** What a successful `calculate()` leaves behind does not depend on any
      alert text stored before it. */
  lemma CalculateForgetsEarlierAlert(p: Page, stale: Option<string>)
    requires p.calculateButton.Clickable()
    ensures Calculate(p.(lastAlertText := stale)) == Calculate(p)
  {
  }

  // ---------------------------------------------------------------------------
  // Reading the result

  /** Position `i` holds the first present value of `lookups`. */
  predicate FirstSomeAt(lookups: seq<Option<string>>, i: int) {
    0 <= i < |lookups| && lookups[i].Some? && forall j :: 0 <= j < i ==> lookups[j].None?
  }

  /** The first present value of a chain of lookups, if any. */
  function FirstPresent(lookups: seq<Option<string>>): (r: Option<string>)
    ensures r.None? <==> forall i :: 0 <= i < |lookups| ==> lookups[i].None?
    ensures r.Some? ==> exists i :: FirstSomeAt(lookups, i) && lookups[i] == r
    decreases |lookups|
  {
    if lookups == [] then None
    else if lookups[0].Some? then lookups[0]
    else
      var r := FirstPresent(lookups[1..]);
      assert r.Some? ==> exists i :: FirstSomeAt(lookups, i) && lookups[i] == r by {
        if r.Some? {
          var i :| FirstSomeAt(lookups[1..], i) && lookups[1..][i] == r;
          assert FirstSomeAt(lookups, i + 1);
        }
      }
      r
  }

  /** The stored alert text, when it is non-empty (`if self._last_alert_text`). */
  function AlertLookup(p: Page): Option<string> {
    match p.lastAlertText
    case Some(text) => if text != "" then Some(text) else None
    case None => None
  }

  /** The answer field's value when it becomes visible in time; a timeout or a
      missing element falls through. */
  function AnswerLookup(p: Page): Option<string> {
    if p.answer.presence.Visible() then Some(p.answer.value) else None
  }

  /** The body text stripped of surrounding whitespace; any failure falls
      through. */
  function BodyLookup(p: Page): Option<string> {
    match p.body
    case Some(text) => Some(Text.Strip(text))
    case None => None
  }

  /**
   `read_answer()`: the first of the non-empty stored alert text, the answer
   field's value and the stripped body text that is available, or "" when
   none is. It never raises.
   */
  function ReadAnswer(p: Page): (r: string)
    ensures p.lastAlertText.Some? && p.lastAlertText.value != "" ==> r == p.lastAlertText.value
    ensures (p.lastAlertText.None? || p.lastAlertText.value == "") && p.answer.presence.Visible()
      ==> r == p.answer.value
    ensures (p.lastAlertText.None? || p.lastAlertText.value == "") && !p.answer.presence.Visible()
      ==> r == (if p.body.Some? then Text.Strip(p.body.value) else "")
  {
    var lookups := [AlertLookup(p), AnswerLookup(p), BodyLookup(p)];
    var found := FirstPresent(lookups);
    assert lookups[0].None? && lookups[1].None? ==> found == lookups[2];
    found.GetOr("")
  }

  /** The answer read back depends only on the stored alert text, the answer
      field and the page body. */
  lemma ReadAnswerReadsOnly(p: Page, q: Page)
    requires p.lastAlertText == q.lastAlertText && p.answer == q.answer && p.body == q.body
    ensures ReadAnswer(p) == ReadAnswer(q)
  {
  }

  /** A non-empty stored alert decides the answer alone: neither the answer
      field nor the body is consulted. */
  lemma ReadAnswerPrefersAlert(p: Page, answer: TextField, body: Option<string>)
    requires p.lastAlertText.Some? && p.lastAlertText.value != ""
    ensures ReadAnswer(p.(answer := answer, body := body)) == ReadAnswer(p)
  {
  }

  /** The answer field is returned as it is, whitespace included; only the body
      fallback is stripped. */
  lemma ReadAnswerKeepsFieldWhitespace(p: Page)
    requires p.lastAlertText == None
    requires p.answer == TextField(Present(true, true), " 15 ")
    ensures ReadAnswer(p) == " 15 "
  {
  }
}

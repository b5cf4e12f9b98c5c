/**
 Types shared by the page facade and the two scenario classifiers: an optional
 value, the two Selenium exceptions the harness reacts to, the verdict a test
 reaches, and an abstraction of Python's `float()` parsing.
 */
module Common {

  /** The conventional Some/None datatype, standing for Python's `x | None`. */
  datatype Option<+T> = None | Some(value: T) {

    /** The wrapped value, or `default` when there is none. */
    function GetOr(default: T): T {
      match this
      case Some(v) => v
      case None => default
    }
  }

  /** The exceptions a bounded wait or a lookup raises (`TimeoutException`,
      `NoSuchElementException`). */
  datatype WebError = Timeout | NoSuchElement

  /** How a test ends once it classifies its observation: it returns (PASS),
      calls `pytest.xfail` (expected defect) or fails an assertion. */
  datatype Verdict = Pass | XFail | Fail

  /** How a whole test invocation ends: either with a verdict, or with an
      exception the test did not catch (reported by pytest as an error). */
  datatype TestResult = Classified(verdict: Verdict) | Raised(error: WebError)

  /**
   Python's `float()` is not modelled; it is a parameter. `parses(s)` says that
   `float(s)` returns rather than raising `ValueError`, and `equalAsFloats(a, b)`
   says that the two parsed values compare equal with `==`. Nothing is assumed
   about `equalAsFloats`: in particular it need not be reflexive, since
   `float("nan") != float("nan")`.
   */
  datatype FloatParsing = FloatParsing(parses: string -> bool, equalAsFloats: (string, string) -> bool) {

    /** `_is_number(s)`: whether `float(s)` succeeds. */
    predicate IsNumber(s: string) {
      parses(s)
    }

    /** `float(a) == float(b)` inside a `try` whose `except ValueError` yields
        false: a string that does not parse makes the comparison false. */
    predicate NumbersEqual(a: string, b: string) {
      parses(a) && parses(b) && equalAsFloats(a, b)
    }
  }

  /** `_numbers_equal` holds only between two strings `_is_number` accepts:
      a string `float()` rejects makes it false, whatever the other one is. */
  lemma NumbersEqualOnlyBetweenNumbers(fp: FloatParsing, a: string, b: string)
    ensures fp.NumbersEqual(a, b) ==> fp.IsNumber(a) && fp.IsNumber(b)
    ensures !fp.IsNumber(a) || !fp.IsNumber(b) ==> !fp.NumbersEqual(a, b)
  {
  }
}

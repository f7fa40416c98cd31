/** `AssertionHelper` (utils/helpers.py): checks that raise `AssertionError`
    exactly when their condition fails and otherwise do nothing. */
module AssertionHelper {
  import opened Results
  import opened Text

  /** What a check does: return normally, or raise `AssertionError` with a
      message. */
  datatype Outcome = Passed | Raised(message: string)

  /** Python's `message or default`: a missing or empty message is falsy. */
  function MessageOr(message: Option<string>, default: string): (r: string)
    ensures message.Some? && message.value != "" ==> r == message.value
    ensures (message.None? || message.value == "") ==> r == default
  {
    if message.Some? && message.value != "" then message.value else default
  }

  /** `assert_contains`: raises exactly when `expected` is not a substring of
      `actual`; the error always carries a non-empty message, the caller's
      own when it gave a non-empty one. */
  function AssertContains(actual: string, expected: string, message: Option<string>): (o: Outcome)
    ensures o.Raised? <==> !OccursIn(expected, actual)
    ensures o.Raised? ==> o.message != []
    ensures o.Raised? && message.Some? && message.value != "" ==> o.message == message.value
  {
    ContainsMeansOccurs(actual, expected);
    if !Contains(actual, expected) then
      Raised(MessageOr(message, "Expected '" + expected + "' to be in '" + actual + "'"))
    else Passed
  }

  /** `assert_not_contains`: raises exactly when `expected` is a substring
      of `actual`. */
  function AssertNotContains(actual: string, expected: string, message: Option<string>): (o: Outcome)
    ensures o.Raised? <==> OccursIn(expected, actual)
    ensures o.Raised? ==> o.message != []
    ensures o.Raised? && message.Some? && message.value != "" ==> o.message == message.value
  {
    ContainsMeansOccurs(actual, expected);
    if Contains(actual, expected) then
      Raised(MessageOr(message, "Expected '" + expected + "' not to be in '" + actual + "'"))
    else Passed
  }

  // Numbers are Python floats, modelled as reals; `show` is their `str`.

  /** `assert_greater_than`: raises exactly when `actual <= expected`. */
  function AssertGreaterThan(actual: real, expected: real, message: Option<string>, show: real -> string): (o: Outcome)
    ensures o.Passed? <==> actual > expected
    ensures o.Raised? ==> o.message != []
    ensures o.Raised? && message.Some? && message.value != "" ==> o.message == message.value
  {
    if actual <= expected then
      Raised(MessageOr(message, "Expected " + show(actual) + " to be greater than " + show(expected)))
    else Passed
  }

  /** `assert_less_than`: raises exactly when `actual >= expected`. */
  function AssertLessThan(actual: real, expected: real, message: Option<string>, show: real -> string): (o: Outcome)
    ensures o.Passed? <==> actual < expected
    ensures o.Raised? ==> o.message != []
    ensures o.Raised? && message.Some? && message.value != "" ==> o.message == message.value
  {
    if actual >= expected then
      Raised(MessageOr(message, "Expected " + show(actual) + " to be less than " + show(expected)))
    else Passed
  }

  /** `assert_between`: raises exactly when `actual` lies outside the closed
      interval from `minVal` to `maxVal`. */
  function AssertBetween(actual: real, minVal: real, maxVal: real, message: Option<string>, show: real -> string): (o: Outcome)
    ensures o.Passed? <==> minVal <= actual <= maxVal
    ensures o.Raised? ==> o.message != []
    ensures o.Raised? && message.Some? && message.value != "" ==> o.message == message.value
  {
    if !(minVal <= actual <= maxVal) then
      Raised(MessageOr(message, "Expected " + show(actual) + " to be between " + show(minVal) + " and " + show(maxVal)))
    else Passed
  }

  /** Exactly one of `assert_contains` and `assert_not_contains` raises. */
  lemma ContainsDuality(actual: string, expected: string, m1: Option<string>, m2: Option<string>)
    ensures AssertContains(actual, expected, m1).Raised? <==> AssertNotContains(actual, expected, m2).Passed?
  {
  }

  /** `a > b` and `b < a` are the same check. */
  lemma GreaterLessDuality(a: real, b: real, m: Option<string>, show: real -> string)
    ensures AssertGreaterThan(a, b, m, show).Passed? <==> AssertLessThan(b, a, m, show).Passed?
  {
  }

  /** Inside the interval means neither below its lower end nor above its
      upper end; an empty interval rejects everything. */
  lemma BetweenByComparisons(x: real, lo: real, hi: real, m: Option<string>, show: real -> string)
    ensures AssertBetween(x, lo, hi, m, show).Passed?
        <==> AssertLessThan(x, lo, m, show).Raised? && AssertGreaterThan(x, hi, m, show).Raised?
    ensures hi < lo ==> AssertBetween(x, lo, hi, m, show).Raised?
  {
  }

  /** The empty string is in every string, so `assert_contains` with it
      never raises. */
  lemma EmptyAlwaysContained(actual: string, m: Option<string>)
    ensures AssertContains(actual, "", m).Passed?
  {
    assert OccursAt("", actual, 0);
  }
}

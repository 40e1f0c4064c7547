/**
 * The two outcome matchers the walker hands back: a success placeholder and a
 * failure carrying a diagnostic message.
 */
module Matchers {
  import opened Text

  datatype Matcher = SuccessMatcher | FailureMatcher(message: string)

  /** The diagnostic "path = P, expected = E, actual = A". */
  function FailureText(path: string, expected: string, actual: string): string {
    "path = " + path + ", expected = " + expected + ", actual = " + actual
  }

  /** A failure matcher whose message reports the path and the two values. */
  function NewFailureMatcher(path: string, expected: string, actual: string): (m: Matcher)
    ensures m.FailureMatcher?
    ensures |m.message| == 31 + |path| + |expected| + |actual|
    ensures StartsWith(m.message, "path = " + path)
    ensures m.message[7 + |path|..|m.message| - |actual|] == ", expected = " + expected + ", actual = "
    ensures m.message[|m.message| - |actual|..] == actual
  {
    var text := FailureText(path, expected, actual);
    assert text == ("path = " + path) + (", expected = " + expected + ", actual = " + actual);
    FailureMatcher(text)
  }

  /**
   * `Match`: the success matcher always matches, a failure matcher never does.
   * Neither errs, so Go's always-nil error result is not modelled.
   */
  function Match(m: Matcher): (b: bool)
    ensures b <==> m.SuccessMatcher?
    ensures b ==> FailureMessage(m) == "" && NegatedFailureMessage(m) == ""
    ensures !b ==> NegatedFailureMessage(m) == "Not " + m.message
  {
    m.SuccessMatcher?
  }

  function FailureMessage(m: Matcher): (s: string)
    ensures m.SuccessMatcher? ==> s == ""
    ensures m.FailureMatcher? ==> s == m.message
  {
    match m
    case SuccessMatcher => ""
    case FailureMatcher(message) => message
  }

  function NegatedFailureMessage(m: Matcher): (s: string)
    ensures m.SuccessMatcher? ==> s == ""
    ensures m.FailureMatcher? ==> s == "Not " + FailureMessage(m)
  {
    match m
    case SuccessMatcher => ""
    case FailureMatcher(message) => "Not " + message
  }

  /** A matcher built for a failure never matches, and both its messages name the path. */
  lemma NewFailureNeverMatches(path: string, expected: string, actual: string)
    ensures !Match(NewFailureMatcher(path, expected, actual))
    ensures StartsWith(FailureMessage(NewFailureMatcher(path, expected, actual)), "path = " + path)
    ensures StartsWith(NegatedFailureMessage(NewFailureMatcher(path, expected, actual)), "Not path = " + path)
  {
    var m := NewFailureMatcher(path, expected, actual);
    assert NegatedFailureMessage(m) == "Not " + m.message;
    assert NegatedFailureMessage(m)[..11 + |path|] == "Not " + m.message[..7 + |path|];
  }

  /** The negated message of a failure differs from its message; a success has neither. */
  lemma MessagesDiffer(m: Matcher)
    ensures m.FailureMatcher? <==> NegatedFailureMessage(m) != FailureMessage(m)
  {
    if m.FailureMatcher? {
      assert |NegatedFailureMessage(m)| == |FailureMessage(m)| + 4;
    }
  }
}

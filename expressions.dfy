/**
 * The expression language of expected string values: the fixed literal forms
 * `{{BeEmpty()}}`, `{{Not(BeEmpty())}}`, `{{BeTimestamp(T, D)}}` and
 * `{{BeNumerically(C, X, ...)}}`, each recognised by hand as the anchored
 * regular expressions of matcher/dsl.go:17-23 accept it, and literal equality
 * for everything else.
 */
module Expressions {
  import opened Wrappers
  import opened Text
  import opened Default
  import opened Errors

  /** What a numeric or temporal comparison from the host library concludes. */
  datatype Verdict = Pass | Miss | Fault(reason: string)

  /**
   * The floating-point and time facilities the matcher borrows from its host
   * libraries, kept opaque:
   * `parseFloat` is `strconv.ParseFloat(s, 64)`;
   * `numerically(c, args, x)` is gomega's `BeNumerically(c, args...)` applied to x;
   * `parseTime` says whether text is an RFC 3339 time with optional fraction;
   * `within(t, ns, a)` says whether time `a` lies within `ns` nanoseconds of time `t`.
   */
  datatype Library = Library(
    parseFloat: string -> Option<real>,
    numerically: (string, seq<real>, real) -> Verdict,
    parseTime: string -> bool,
    within: (string, int, string) -> bool)

  const EmptyPattern: string := "{{BeEmpty()}}"
  const NotEmptyPattern: string := "{{Not(BeEmpty())}}"
  const TimestampOpen: string := "{{BeTimestamp("
  const NumberOpen: string := "{{BeNumerically("
  const Close: string := ")}}"

  /** `isBeEmpty`: a String node whose text is exactly the empty-pattern literal. */
  /**
   * `isBeEmpty`: a String node whose whole text is `{{BeEmpty()}}` (the pattern
   * is anchored at both ends); that text never reads as a timestamp expression.
   */
  function IsBeEmpty(n: Node): (b: bool)
    ensures b <==> n.typ == String && n.value == "{{BeEmpty()}}"
    ensures b ==> ParseTimestamp(n.value).None?
  {
    LiteralsAreNotTimestamps();
    n.typ == String && n.value == EmptyPattern
  }

  predicate DigitsAt(t: string, lo: nat, hi: nat)
    requires lo <= hi <= |t|
  {
    forall i :: lo <= i < hi ==> IsDigit(t[i])
  }

  /** `\d{4}-\d{2}-\d{2}T\d{2}:\d{2}:\d{2}.\d{3}Z`, where `.` is any character but a newline. */
  predicate TimeShape(t: string) {
    && |t| == 24
    && DigitsAt(t, 0, 4) && t[4] == '-' && DigitsAt(t, 5, 7) && t[7] == '-'
    && DigitsAt(t, 8, 10) && t[10] == 'T' && DigitsAt(t, 11, 13) && t[13] == ':'
    && DigitsAt(t, 14, 16) && t[16] == ':' && DigitsAt(t, 17, 19) && t[19] != '\n'
    && DigitsAt(t, 20, 23) && t[23] == 'Z'
  }

  /** The timestamp expression with time `t`, the spaces `w` after the comma and the delta `d`. */
  function TimestampText(t: string, w: string, d: string): string {
    TimestampOpen + t + "," + w + d + Close
  }

  /**
   * The anchored timestamp pattern: on a match, the time, the spaces after the
   * comma and the delta digits.
   */
  function ParseTimestamp(s: string): (r: Option<(string, string, string)>)
    ensures r.Some? ==>
      && TimeShape(r.value.0) && AllRegexpSpaces(r.value.1)
      && r.value.2 != [] && AllDigits(r.value.2)
      && s == TimestampText(r.value.0, r.value.1, r.value.2)
    ensures r.Some? ==> StartsWith(s, TimestampOpen)
  {
    if |s| < 42 || s[..14] != TimestampOpen || s[|s| - 3..] != Close || s[38] != ',' then None
    else
      var t := s[14..38];
      var after := s[39..|s| - 3];
      var w := SpacePrefix(after);
      var d := after[|w|..];
      if TimeShape(t) && d != [] && AllDigits(d) then
        assert after == w + d;
        assert s == s[..14] + t + "," + after + s[|s| - 3..];
        Some((t, w, d))
      else None
  }

  /** Every text of the timestamp form is recognised, with its own pieces. */
  lemma TimestampRoundTrip(t: string, w: string, d: string)
    requires TimeShape(t) && AllRegexpSpaces(w) && d != [] && AllDigits(d)
    ensures ParseTimestamp(TimestampText(t, w, d)) == Some((t, w, d))
  {
    var s := TimestampText(t, w, d);
    assert s[..14] == TimestampOpen && s[14..38] == t && s[38] == ',';
    assert s[|s| - 3..] == Close;
    assert s[39..|s| - 3] == w + d;
    assert IsDigit(d[0]);
    SpacePrefixOf(w, d);
    assert (w + d)[|w|..] == d;
  }

  /** The numeric expression with comparator `c`, the spaces `w` after the comma and the data `d`. */
  function NumberText(c: string, w: string, d: string): string {
    NumberOpen + NumberBody(c, w, d) + Close
  }

  function NumberBody(c: string, w: string, d: string): string {
    c + "," + w + d
  }

  /** The pieces the numeric pattern's groups may hold, with `\s*` taking all it can. */
  predicate NumberPieces(c: string, w: string, d: string) {
    && c != [] && ',' !in c
    && AllRegexpSpaces(w)
    && d != [] && ')' !in d
    && (|d| == 1 || !IsRegexpSpace(d[0]))
  }

  /**
   * How the text after the comparator's comma divides between `\s*` and the
   * data group: the spaces go to `\s*` except that the data keeps at least one
   * character.
   */
  function SplitData(rest: string): (r: (string, string))
    requires rest != [] && ')' !in rest
    ensures rest == r.0 + r.1
    ensures NumberPieces("x", r.0, r.1)
  {
    var spaces := SpacePrefix(rest);
    var w := if |spaces| == |rest| then rest[..|rest| - 1] else spaces;
    assert rest == w + rest[|w|..];
    (w, rest[|w|..])
  }

  lemma SplitDataOf(w: string, d: string)
    requires NumberPieces("x", w, d)
    ensures SplitData(w + d) == (w, d)
  {
    assert ')' !in w;
    if !IsRegexpSpace(d[0]) {
      SpacePrefixOf(w, d);
    } else {
      SpacePrefixOf(w + d, []);
      assert w + d + [] == w + d;
      assert (w + d)[..|w + d| - 1] == w;
    }
    assert (w + d)[|w|..] == d;
  }

  /** The part between the parentheses: the comparator runs to the first comma, the data follows. */
  function ParseNumberBody(body: string): (r: Option<(string, string, string)>)
    ensures r.Some? ==> NumberPieces(r.value.0, r.value.1, r.value.2)
    ensures r.Some? ==> body == NumberBody(r.value.0, r.value.1, r.value.2)
  {
    var i := FirstIndex(body, ',');
    if i == 0 || i + 1 >= |body| then None
    else
      var rest := body[i + 1..];
      if ')' in rest then None
      else
        var (w, d) := SplitData(rest);
        assert body == body[..i] + "," + rest;
        Some((body[..i], w, d))
  }

  /**
   * The anchored numeric pattern: the comparator runs to the first comma, the
   * data holds no ')', and the spaces after the comma go to `\s*` as SplitData says.
   */
  function ParseNumber(s: string): (r: Option<(string, string, string)>)
    ensures r.Some? ==>
      NumberPieces(r.value.0, r.value.1, r.value.2) && s == NumberText(r.value.0, r.value.1, r.value.2)
    ensures r.Some? ==> StartsWith(s, NumberOpen)
  {
    if |s| < 19 || s[..16] != NumberOpen || s[|s| - 3..] != Close then None
    else
      var body := s[16..|s| - 3];
      assert s == NumberOpen + body + Close;
      ParseNumberBody(body)
  }

  /** Every text of the numeric form is recognised, with its own pieces. */
  lemma NumberRoundTrip(c: string, w: string, d: string)
    requires NumberPieces(c, w, d)
    ensures ParseNumber(NumberText(c, w, d)) == Some((c, w, d))
  {
    var s := NumberText(c, w, d);
    var body := NumberBody(c, w, d);
    assert body == c + ("," + (w + d));
    assert s[..16] == NumberOpen && s[|s| - 3..] == Close && s[16..|s| - 3] == body;
    FirstIndexAfter(c, "," + (w + d), ',');
    assert body[..|c|] == c && body[|c| + 1..] == w + d;
    assert ')' !in w + d;
    SplitDataOf(w, d);
  }

  /** The matcher an expected string denotes. `thresholdNs` is the delta in nanoseconds. */
  datatype StringMatcher =
    | BeEmpty
    | NotBeEmpty
    | BeTimestamp(time: string, thresholdNs: int)
    | Equal(expected: string)

  /**
   * `CreateStringMatcher`: the empty literal, then the not-empty literal, then the
   * timestamp form (its time must parse and its delta fit in 64 bits; the
   * millisecond delta times 1,000,000 wraps like Go's int64 `time.Duration`),
   * and otherwise equality with the text itself.
   */
  function CreateStringMatcher(lib: Library, input: string): (r: Result<StringMatcher, Error>)
    ensures r.Failure? ==> ParseTimestamp(input).Some?
    ensures r == Success(BeEmpty) <==> input == EmptyPattern
    ensures r == Success(NotBeEmpty) <==> input == NotEmptyPattern
    ensures r.Success? && r.value.BeTimestamp? ==>
      ParseTimestamp(input).Some? && r.value.time == ParseTimestamp(input).value.0
    ensures r.Success? && r.value.Equal? ==> r.value.expected == input
  {
    if input == EmptyPattern then Success(BeEmpty)
    else if input == NotEmptyPattern then Success(NotBeEmpty)
    else
      match ParseTimestamp(input)
      case None => Success(Equal(input))
      case Some((t, _, d)) =>
        if !lib.parseTime(t) then Failure(TimeSyntax(t))
        else
          match ParseDigits64(d)
          case None => Failure(DeltaRange(d))
          case Some(ms) => Success(BeTimestamp(t, Wrap64(ms * 1_000_000)))
  }

  /** Neither literal has the timestamp form, so the three recognisers never compete. */
  lemma LiteralsAreNotTimestamps()
    ensures ParseTimestamp(EmptyPattern).None? && ParseTimestamp(NotEmptyPattern).None?
  {
  }

  /** Text not in one of the three forms denotes equality with itself. */
  lemma PlainTextIsEquality(lib: Library, s: string)
    requires s != EmptyPattern && s != NotEmptyPattern
    requires ParseTimestamp(s).None?
    ensures CreateStringMatcher(lib, s) == Success(Equal(s))
  {
  }

  /** A timestamp with a parsable time and an in-range delta yields a timestamp matcher of that delta. */
  lemma TimestampMatcherDelta(lib: Library, t: string, w: string, d: string)
    requires TimeShape(t) && AllRegexpSpaces(w) && d != [] && AllDigits(d)
    requires lib.parseTime(t) && DigitsValue(d) <= MaxInt64
    ensures CreateStringMatcher(lib, TimestampText(t, w, d))
         == Success(BeTimestamp(t, Wrap64(DigitsValue(d) * 1_000_000)))
  {
    TimestampRoundTrip(t, w, d);
    LiteralsAreNotTimestamps();
  }

  /** `Match` of a string matcher on the actual text: whether it matched, and an error. */
  function MatchString(lib: Library, m: StringMatcher, act: string): (r: (bool, Option<Error>))
    ensures r.1.Some? ==> !r.0
    ensures m.BeEmpty? ==> r == (act == [], None)
    ensures m.NotBeEmpty? ==> r == (act != [], None)
    ensures m.Equal? ==> r == (act == m.expected, None)
  {
    match m
    case BeEmpty => (|act| == 0, None)
    case NotBeEmpty => (|act| != 0, None)
    case Equal(e) => (act == e, None)
    case BeTimestamp(t, ns) =>
      if !lib.parseTime(act) then (false, Some(TimeSyntax(act)))
      else (lib.within(t, ns, act), None)
  }

  /** The numeric matcher a `{{BeNumerically(..)}}` expression denotes. */
  datatype NumberMatcher = NumberMatcher(comparator: string, args: seq<real>)

  predicate ParsesAsFloat(lib: Library, piece: string) {
    lib.parseFloat(TrimSpace(piece)).Some?
  }

  /** The position of the first piece that is not a float, or the count when all are. */
  function FirstNonFloat(lib: Library, pieces: seq<string>): (i: nat)
    ensures i <= |pieces|
    ensures i < |pieces| ==> !ParsesAsFloat(lib, pieces[i])
  {
    if pieces == [] || !ParsesAsFloat(lib, pieces[0]) then 0
    else 1 + FirstNonFloat(lib, pieces[1..])
  }

  /** Every piece before the first non-float one parses. */
  lemma {:induction false} FloatsBefore(lib: Library, pieces: seq<string>, j: nat)
    requires j < FirstNonFloat(lib, pieces)
    ensures ParsesAsFloat(lib, pieces[j])
  {
    if j > 0 {
      FloatsBefore(lib, pieces[1..], j - 1);
    }
  }

  /**
   * Each comma-separated piece, trimmed, as a float; the first piece that does
   * not parse is the error.
   */
  function ParseFloats(lib: Library, pieces: seq<string>): (r: Result<seq<real>, Error>)
    ensures r.Success? <==> FirstNonFloat(lib, pieces) == |pieces|
    ensures r.Success? ==>
      |r.value| == |pieces| && forall i :: 0 <= i < |pieces| ==> Some(r.value[i]) == lib.parseFloat(TrimSpace(pieces[i]))
    ensures r.Failure? ==> r.error == FloatSyntax(TrimSpace(pieces[FirstNonFloat(lib, pieces)]))
  {
    if pieces == [] then Success([])
    else
      match lib.parseFloat(TrimSpace(pieces[0]))
      case None => Failure(FloatSyntax(TrimSpace(pieces[0])))
      case Some(x) =>
        match ParseFloats(lib, pieces[1..])
        case Failure(e) => Failure(e)
        case Success(xs) => Success([x] + xs)
  }

  /** All pieces parse exactly when there is no first non-float piece. */
  lemma AllFloats(lib: Library, pieces: seq<string>)
    ensures ParseFloats(lib, pieces).Success? <==> forall i :: 0 <= i < |pieces| ==> ParsesAsFloat(lib, pieces[i])
  {
    if ParseFloats(lib, pieces).Success? {
      forall i | 0 <= i < |pieces| ensures ParsesAsFloat(lib, pieces[i]) {
        FloatsBefore(lib, pieces, i);
      }
    }
  }

  /**
   * `CreateNumberMatcher`: a number expectation must be a `{{BeNumerically(..)}}`
   * expression; its data, split at every comma, must be all floats.
   */
  function CreateNumberMatcher(lib: Library, input: string): (r: Result<NumberMatcher, Error>)
    ensures ParseNumber(input).None? ==> r == Failure(NumberFormat(input))
    ensures r.Success? ==>
      && ParseNumber(input).Some?
      && r.value.comparator == ParseNumber(input).value.0
      && |r.value.args| == CountChar(ParseNumber(input).value.2, ',') + 1
  {
    match ParseNumber(input)
    case None => Failure(NumberFormat(input))
    case Some((c, _, d)) =>
      match ParseFloats(lib, Split(d, ','))
      case Failure(e) => Failure(e)
      case Success(xs) => Success(NumberMatcher(c, xs))
  }

  /** Text that does not open with `{{BeNumerically(` is never a number expectation. */
  lemma NotNumericIsError(lib: Library, s: string)
    requires !StartsWith(s, NumberOpen)
    ensures CreateNumberMatcher(lib, s) == Failure(NumberFormat(s))
  {
  }

  /** A well-formed numeric expression keeps its comparator verbatim and parses each datum. */
  lemma NumberMatcherArgs(lib: Library, c: string, w: string, d: string)
    requires NumberPieces(c, w, d)
    requires forall i :: 0 <= i < |Split(d, ',')| ==> ParsesAsFloat(lib, Split(d, ',')[i])
    ensures CreateNumberMatcher(lib, NumberText(c, w, d)).Success?
    ensures CreateNumberMatcher(lib, NumberText(c, w, d)).value.comparator == c
  {
    NumberRoundTrip(c, w, d);
    AllFloats(lib, Split(d, ','));
  }

  /** The outcome of a numeric comparison: whether it matched, and an error. */
  function Judge(v: Verdict): (r: (bool, Option<Error>))
    ensures r.0 <==> v.Pass?
    ensures r.1.Some? <==> v.Fault?
  {
    match v
    case Pass => (true, None)
    case Miss => (false, None)
    case Fault(reason) => (false, Some(MatcherFault(reason)))
  }
}

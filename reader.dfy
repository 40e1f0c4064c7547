/**
 * The multipart fixture reader: a text of sections, each opened by a `###`
 * header naming its key with `key=NAME`, whose body lines are kept verbatim and
 * passed through variable substitution. Blank lines and `# ` comments are
 * ignored.
 */
module Reader {
  import opened Wrappers
  import opened Text
  import opened Default
  import opened Errors
  import opened Substitution

  const CommentStart: string := "# "
  const HeaderStart: string := "###"
  const KeyMark: string := "key="

  // ----- Lines -----

  /** Whether `s` has a `key=` at `i` followed by a word character: a match of `key=(\w+)` starts there. */
  predicate KeyAt(s: string, i: nat) {
    i + 5 <= |s| && StartsWith(s[i..], KeyMark) && IsWordChar(s[i + 4])
  }

  /** The key of a header line: the word run after the leftmost `key=` that has one, as the regular expression finds it. */
  function HeaderKey(s: string): (k: Option<string>)
    ensures k.None? <==> forall i :: 0 <= i < |s| ==> !KeyAt(s, i)
    ensures k.Some? ==>
      exists i :: 0 <= i < |s| && KeyAt(s, i) && (forall j :: 0 <= j < i ==> !KeyAt(s, j))
        && k.value == WordPrefix(s[i + 4..])
    ensures k.Some? ==> k.value != [] && AllWordChars(k.value)
    decreases |s|
  {
    if |s| < 5 then None
    else if KeyAt(s, 0) then Some(WordPrefix(s[4..]))
    else
      var k := HeaderKey(s[1..]);
      assert forall i :: 0 <= i < |s| - 1 ==> (KeyAt(s[1..], i) <==> KeyAt(s, i + 1)) by {
        forall i | 0 <= i < |s| - 1 ensures KeyAt(s[1..], i) <==> KeyAt(s, i + 1) {
          assert s[1..][i..] == s[i + 1..];
        }
      }
      if k.Some? then
        var i :| 0 <= i < |s| - 1 && KeyAt(s[1..], i) && (forall j :: 0 <= j < i ==> !KeyAt(s[1..], j))
          && k.value == WordPrefix(s[1..][i + 4..]);
        assert s[1..][i + 4..] == s[i + 5..];
        assert forall j :: 0 <= j < i + 1 ==> !KeyAt(s, j) by {
          forall j | 0 <= j < i + 1 ensures !KeyAt(s, j) {
            if j > 0 { assert !KeyAt(s[1..], j - 1); }
          }
        }
        k
      else
        assert forall i :: 0 <= i < |s| ==> !KeyAt(s, i) by {
          forall i | 0 <= i < |s| ensures !KeyAt(s, i) {
            if i > 0 { assert !KeyAt(s[1..], i - 1); }
          }
        }
        k
  }
  /** A `key=` match one position further into `s` is one in `s[1..]`. */
  lemma KeyAtShift(s: string, i: nat)
    requires 0 < |s|
    ensures KeyAt(s[1..], i) <==> KeyAt(s, i + 1)
  {
    if i + 1 <= |s| {
      assert s[1..][i..] == s[i + 1..];
    }
  }

  /** The leftmost `key=` match decides the key. */
  lemma {:induction false} LeftmostKey(s: string, p: nat)
    requires KeyAt(s, p) && forall j :: 0 <= j < p ==> !KeyAt(s, j)
    ensures HeaderKey(s) == Some(WordPrefix(s[p + 4..]))
    decreases p
  {
    if p > 0 {
      assert !KeyAt(s, 0);
      KeyAtShift(s, p - 1);
      forall j | 0 <= j < p - 1 ensures !KeyAt(s[1..], j) {
        KeyAtShift(s, j);
      }
      LeftmostKey(s[1..], p - 1);
      assert s[1..][p - 1 + 4..] == s[p + 4..];
    }
  }

  /** A header whose first `key=` match is `key=<w>` yields `w`, however the text goes on after the word. */
  lemma HeaderKeyOf(x: string, w: string, d: string)
    requires w != [] && AllWordChars(w) && (d == [] || !IsWordChar(d[0]))
    requires forall i :: 0 <= i < |x| ==> !KeyAt(x + KeyMark + w + d, i)
    ensures HeaderKey(x + KeyMark + w + d) == Some(w)
  {
    var s := x + KeyMark + w + d;
    assert s[|x|..] == KeyMark + (w + d);
    assert s[|x| + 4..] == w + d;
    assert KeyAt(s, |x|) by {
      assert s[|x|..][..4] == KeyMark;
      assert s[|x| + 4] == w[0];
    }
    LeftmostKey(s, |x|);
    WordPrefixOf(w, d);
  }



  /** What a line is to the reader, judged on its trimmed text. */
  datatype LineKind = Ignored | Header(key: Option<string>) | Body

  function Classify(line: string): (k: LineKind)
    ensures k == Ignored <==> TrimSpace(line) == [] || StartsWith(TrimSpace(line), CommentStart)
    ensures k.Header? <==>
      TrimSpace(line) != [] && !StartsWith(TrimSpace(line), CommentStart) && StartsWith(TrimSpace(line), HeaderStart)
    ensures k.Header? ==> k.key == HeaderKey(TrimSpace(line))
  {
    var s := TrimSpace(line);
    if s == [] || StartsWith(s, CommentStart) then Ignored
    else if StartsWith(s, HeaderStart) then Header(HeaderKey(s))
    else Body
  }

  /** Each line followed by a newline: what the reader accumulates as its raw text. */
  function Raw(lines: seq<string>): string {
    if lines == [] then "" else Raw(lines[..|lines| - 1]) + lines[|lines| - 1] + "\n"
  }

  /** A line with one trailing carriage return removed. */
  function DropCR(s: string): string {
    if s != [] && s[|s| - 1] == '\r' then s[..|s| - 1] else s
  }

  /**
   * `bufio.ScanLines`: the text split at each newline, a final line without one
   * kept if it is not empty, and one carriage return dropped from each line's end.
   */
  function ScanLines(data: string): (lines: seq<string>)
    ensures forall i :: 0 <= i < |lines| ==> '\n' !in lines[i]
    decreases |data|
  {
    if data == [] then []
    else
      var i := FirstIndex(data, '\n');
      if i == |data| then [DropCR(data)]
      else [DropCR(data[..i])] + ScanLines(data[i + 1..])
  }

  /** A line that ends in a carriage return. */
  predicate EndsInCR(s: string) {
    s != [] && s[|s| - 1] == '\r'
  }

  /** A line without newline or final carriage return, then a newline, splits off as that line. */
  lemma ScanLinesCons(line: string, rest: string)
    requires '\n' !in line && !EndsInCR(line)
    ensures ScanLines(line + "\n" + rest) == [line] + ScanLines(rest)
  {
    var data := line + "\n" + rest;
    assert data == line + ("\n" + rest);
    FirstIndexAfter(line, "\n" + rest, '\n');
    assert data[..|line|] == line;
    assert data[|line| + 1..] == rest;
  }

  /** Raw text splits back into its lines, so long as no line holds a newline or ends in a carriage return. */
  lemma {:induction false} ScanRaw(lines: seq<string>)
    requires forall i :: 0 <= i < |lines| ==> '\n' !in lines[i] && !EndsInCR(lines[i])
    ensures ScanLines(Raw(lines)) == lines
  {
    if lines != [] {
      var rest := lines[1..];
      ScanRaw(rest);
      RawCons(lines[0], rest);
      assert lines == [lines[0]] + rest;
      ScanLinesCons(lines[0], Raw(rest));
    }
  }

  lemma {:induction false} RawCons(line: string, rest: seq<string>)
    ensures Raw([line] + rest) == line + "\n" + Raw(rest)
    decreases |rest|
  {
    if rest != [] {
      var init := rest[..|rest| - 1];
      assert ([line] + rest)[..|rest|] == [line] + init;
      RawCons(line, init);
    } else {
      assert ([line] + rest)[..0] == [];
    }
  }

  /**
   * The lines a reader was built from come back from its raw text, unless some
   * line ended in two carriage returns, whose second the first scan kept.
   */
  lemma ReparseSameLines(data: string)
    requires forall i :: 0 <= i < |ScanLines(data)| ==> !EndsInCR(ScanLines(data)[i])
    ensures ScanLines(Raw(ScanLines(data))) == ScanLines(data)
  {
    ScanRaw(ScanLines(data));
  }

  // ----- The scan -----

  /** A recorded section: its key and its body text, before substitution. */
  datatype Section = Section(key: string, body: string)

  /** The state of the scan loop: the current key, the body so far, and the sections recorded. */
  datatype Scan = Scan(key: string, pending: string, sections: seq<Section>)

  const Start: Scan := Scan("", "", [])

  /**
   * What the loop keeps true: with no key yet there is no body and no section;
   * every section has a key and a non-empty body.
   */
  predicate ScanOk(st: Scan) {
    && (st.key == "" ==> st.pending == "" && st.sections == [])
    && forall j :: 0 <= j < |st.sections| ==> st.sections[j].key != "" && st.sections[j].body != ""
  }

  /**
   * One line of the loop: a header records the body so far under the current
   * key, if there is a body, and switches to the key it names, if any; a body
   * line is appended, verbatim and with a newline, once a key is known.
   */
  function ScanLine(st: Scan, line: string): (r: Result<Scan, Error>)
    ensures ScanOk(st) && r.Success? ==> ScanOk(r.value)
    ensures ScanOk(st) ==> r != Failure(HeaderWithoutKey)
  {
    match Classify(line)
    case Ignored => Success(st)
    case Header(k) =>
      if |st.pending| > 0 && st.key == "" then Failure(HeaderWithoutKey)
      else
        var sections := if |st.pending| > 0 then st.sections + [Section(st.key, st.pending)] else st.sections;
        Success(Scan(if k.Some? then k.value else st.key, "", sections))
    case Body =>
      if st.key == "" then Failure(BodyWithoutKey)
      else Success(Scan(st.key, st.pending + line + "\n", st.sections))
  }

  /** The loop over the lines from state `st`; the first line that fails ends it. */
  function ScanFrom(st: Scan, lines: seq<string>): (r: Result<Scan, Error>)
    ensures ScanOk(st) && r.Success? ==> ScanOk(r.value)
    decreases |lines|
  {
    if lines == [] then Success(st)
    else
      match ScanLine(st, lines[0])
      case Failure(e) => Failure(e)
      case Success(next) => ScanFrom(next, lines[1..])
  }

  /** The state after the last line: the body still open is recorded under the current key. */
  function Flush(st: Scan): seq<Section> {
    if |st.pending| > 0 then st.sections + [Section(st.key, st.pending)] else st.sections
  }

  /** The sections of a text's lines, in order, or the error that ends the scan. */
  function Sections(lines: seq<string>): (r: Result<seq<Section>, Error>)
    ensures r.Success? ==> forall j :: 0 <= j < |r.value| ==> r.value[j].key != "" && r.value[j].body != ""
  {
    match ScanFrom(Start, lines)
    case Failure(e) => Failure(e)
    case Success(st) => Success(Flush(st))
  }

  /** Ignored lines (blank, or `# ` comments) play no part, wherever they stand. */
  lemma {:induction false} IgnoredLineInvisible(st: Scan, before: seq<string>, line: string, after: seq<string>)
    requires Classify(line) == Ignored
    ensures ScanFrom(st, before + [line] + after) == ScanFrom(st, before + after)
    decreases |before|
  {
    if before == [] {
      assert before + [line] + after == [line] + after;
      assert ([line] + after)[1..] == after;
      assert before + after == after;
    } else {
      assert (before + [line] + after)[0] == before[0] && (before + after)[0] == before[0];
      assert (before + [line] + after)[1..] == before[1..] + [line] + after;
      assert (before + after)[1..] == before[1..] + after;
      match ScanLine(st, before[0])
      case Failure(_) =>
      case Success(next) => IgnoredLineInvisible(next, before[1..], line, after);
    }
  }

  /** A body line before any header has named a key is an error. */
  lemma {:induction false} BodyBeforeKey(lines: seq<string>, j: nat)
    requires j < |lines| && Classify(lines[j]) == Body
    requires forall i :: 0 <= i < j ==> Classify(lines[i]) == Ignored
    ensures Sections(lines) == Failure(BodyWithoutKey)
  {
    SkipIgnored(lines, j);
  }

  lemma {:induction false} SkipIgnored(lines: seq<string>, j: nat)
    requires j <= |lines|
    requires forall i :: 0 <= i < j ==> Classify(lines[i]) == Ignored
    ensures ScanFrom(Start, lines) == ScanFrom(Start, lines[j..])
  {
    if j > 0 {
      assert lines[1..][j - 1..] == lines[j..];
      SkipIgnored(lines[1..], j - 1);
    }
  }

  /** Once a key is known nothing can fail: no line clears a key, and body lines are then accepted. */
  lemma {:induction false} KeyedScanSucceeds(st: Scan, lines: seq<string>)
    requires st.key != ""
    ensures ScanFrom(st, lines).Success?
    ensures st.sections <= ScanFrom(st, lines).value.sections
    decreases |lines|
  {
    if lines != [] {
      var next := ScanLine(st, lines[0]);
      assert next.Success? && next.value.key != "" && st.sections <= next.value.sections;
      KeyedScanSucceeds(next.value, lines[1..]);
    }
  }

  /** The header check for an empty key is never what fails: a body exists only once a key does. */
  lemma HeaderWithoutKeyUnreachable(lines: seq<string>)
    ensures Sections(lines) != Failure(HeaderWithoutKey)
  {
    NoHeaderFailure(Start, lines);
  }

  lemma {:induction false} NoHeaderFailure(st: Scan, lines: seq<string>)
    requires ScanOk(st)
    ensures ScanFrom(st, lines) != Failure(HeaderWithoutKey)
    decreases |lines|
  {
    if lines != [] && ScanLine(st, lines[0]).Success? {
      NoHeaderFailure(ScanLine(st, lines[0]).value, lines[1..]);
    }
  }

  /** A header names the key of what follows; a header without `key=` keeps the previous one. */
  lemma HeaderKeys(st: Scan, line: string)
    requires ScanOk(st) && Classify(line).Header?
    ensures ScanLine(st, line).Success?
    ensures ScanLine(st, line).value.pending == ""
    ensures HeaderKey(TrimSpace(line)).Some? ==> ScanLine(st, line).value.key == HeaderKey(TrimSpace(line)).value
    ensures HeaderKey(TrimSpace(line)).None? ==> ScanLine(st, line).value.key == st.key
    ensures st.pending == "" ==> ScanLine(st, line).value.sections == st.sections
    ensures st.pending != "" ==> ScanLine(st, line).value.sections == st.sections + [Section(st.key, st.pending)]
  {
  }

  // ----- Parts -----

  /** The keys the sections name. */
  ghost predicate Named(secs: seq<Section>, k: string) {
    exists j :: 0 <= j < |secs| && secs[j].key == k
  }

  /** The body of the last section with key `k`: a repeated key overwrites the earlier part. */
  function LastBody(secs: seq<Section>, k: string): string
    requires Named(secs, k)
  {
    var last := secs[|secs| - 1];
    if last.key == k then last.body
    else
      assert Named(secs[..|secs| - 1], k) by {
        var j :| 0 <= j < |secs| && secs[j].key == k;
        assert secs[..|secs| - 1][j] == secs[j];
      }
      LastBody(secs[..|secs| - 1], k)
  }

  /** Every name in every section's body has a value. */
  ghost predicate AllDefined(secs: seq<Section>, vars: map<string, string>) {
    forall j :: 0 <= j < |secs| ==> forall n :: n in Names(secs[j].body) ==> n in vars
  }

  /** `parts` holds one entry per key, the substituted body of the last section with that key. */
  ghost predicate PartsOf(secs: seq<Section>, vars: map<string, string>, parts: map<string, string>) {
    && (forall k :: k in parts <==> Named(secs, k))
    && forall k :: k in parts ==> ReplacesTo(LastBody(secs, k), vars, parts[k])
  }

  lemma PartsOfNone(vars: map<string, string>)
    ensures PartsOf([], vars, map[])
  {
  }

  /** Recording one more section replaces the part of its key and leaves the others. */
  lemma PartsOfExtend(secs: seq<Section>, vars: map<string, string>, parts: map<string, string>, s: Section, out: string)
    requires PartsOf(secs, vars, parts) && ReplacesTo(s.body, vars, out)
    ensures PartsOf(secs + [s], vars, parts[s.key := out])
  {
    var secs' := secs + [s];
    assert secs'[..|secs|] == secs;
    forall k ensures k in parts[s.key := out] <==> Named(secs', k) {
      if Named(secs, k) {
        var j :| 0 <= j < |secs| && secs[j].key == k;
        assert secs'[j] == secs[j];
      }
      if Named(secs', k) && k != s.key {
        var j :| 0 <= j < |secs'| && secs'[j].key == k;
        assert j < |secs| && secs[j] == secs'[j];
      }
    }
  }

  /** The first section, in order, with an undefined name, and that name. */
  ghost predicate FirstUndefined(secs: seq<Section>, vars: map<string, string>, name: string) {
    exists j :: 0 <= j < |secs| && name in Names(secs[j].body) && name !in vars && AllDefined(secs[..j], vars)
  }

  /** One step of the loop: the first line's result decides what the rest of the scan is. */
  lemma ScanStep(st: Scan, rest: seq<string>)
    requires rest != []
    ensures ScanLine(st, rest[0]).Failure? ==> ScanFrom(st, rest) == Failure(ScanLine(st, rest[0]).error)
    ensures ScanLine(st, rest[0]).Success? ==> ScanFrom(st, rest) == ScanFrom(ScanLine(st, rest[0]).value, rest[1..])
  {
  }

  /** From a keyed state the scan succeeds and its final sections extend the ones recorded so far. */
  lemma KeyedPrefix(st: Scan, rest: seq<string>)
    requires st.key != ""
    ensures ScanFrom(st, rest).Success? && st.sections <= Flush(ScanFrom(st, rest).value)
  {
    KeyedScanSucceeds(st, rest);
    var fin := ScanFrom(st, rest).value;
    assert fin.sections <= Flush(fin);
  }

  /** A section with an undefined name, after sections without any, is the first such. */
  lemma UndefinedIn(secs: seq<Section>, all: seq<Section>, s: Section, vars: map<string, string>, name: string)
    requires secs + [s] <= all && AllDefined(secs, vars)
    requires name in Names(s.body) && name !in vars
    ensures !AllDefined(all, vars) && FirstUndefined(all, vars, name)
  {
    var j := |secs|;
    assert all[j] == s;
    assert all[..j] == secs;
  }

  /** A body line while no key is set stops the whole scan with `BodyWithoutKey`. */
  lemma BodyWithoutKeyStops(lines: seq<string>, i: nat, cur: Scan)
    requires i < |lines| && ScanFrom(Start, lines) == ScanFrom(cur, lines[i..])
    requires cur.key == "" && Classify(lines[i]) == Body
    ensures Sections(lines) == Failure(BodyWithoutKey)
  {
    ScanStep(cur, lines[i..]);
  }

  /** A header that closes a body naming an undefined variable makes that variable the first undefined one. */
  lemma HeaderClosesUndefined(lines: seq<string>, i: nat, cur: Scan, vars: map<string, string>, name: string)
    requires i < |lines| && ScanFrom(Start, lines) == ScanFrom(cur, lines[i..])
    requires cur.key != "" && |cur.pending| > 0 && Classify(lines[i]).Header?
    requires AllDefined(cur.sections, vars) && name in Names(cur.pending) && name !in vars
    ensures Sections(lines).Success? && FirstUndefined(Sections(lines).value, vars, name)
  {
    ScanStep(cur, lines[i..]);
    var next := ScanLine(cur, lines[i]).value;
    assert next.sections == cur.sections + [Section(cur.key, cur.pending)];
    assert lines[i..][1..] == lines[i + 1..];
    KeyedPrefix(next, lines[i + 1..]);
    UndefinedIn(cur.sections, Sections(lines).value, Section(cur.key, cur.pending), vars, name);
  }

  /**
   * Closing a section: its body is substituted and stored under its key,
   * replacing an earlier part with that key.
   */
  method Record(key: string, body: string, vars: map<string, string>, parts: map<string, string>,
                ghost secs: seq<Section>, ghost done: bool)
    returns (parts': map<string, string>, err: Option<Error>)
    requires PartsOf(secs, vars, parts) && (done ==> AllDefined(secs, vars))
    ensures err.None? <==> forall n :: n in Names(body) ==> n in vars
    ensures err.Some? ==> err.value.UndefinedVariable? && err.value.name in Names(body) && err.value.name !in vars
    ensures err.None? ==> PartsOf(secs + [Section(key, body)], vars, parts')
    ensures err.None? && done ==> AllDefined(secs + [Section(key, body)], vars)
  {
    var replaced := Replace(body, vars);
    if replaced.Failure? {
      return parts, Some(replaced.error);
    }
    PartsOfExtend(secs, vars, parts, Section(key, body), replaced.value);
    parts', err := parts[key := replaced.value], None;
    if done {
      var secs' := secs + [Section(key, body)];
      forall j | 0 <= j < |secs'| ensures forall n :: n in Names(secs'[j].body) ==> n in vars {
        if j < |secs| {
          assert secs'[j] == secs[j];
        }
      }
    }
  }

  /**
   * `newMultipartReader`'s loop over the scanned lines, up to the last: the raw
   * text, the parts of the sections closed so far, and the key and body still
   * open; or the first error.
   */
  method ScanParts(lines: seq<string>, vars: map<string, string>)
    returns (raw: string, key: string, pending: string, parts: map<string, string>, ghost secs: seq<Section>,
             err: Option<Error>)
    ensures err.None? ==> ScanFrom(Start, lines) == Success(Scan(key, pending, secs))
    ensures err.None? ==> raw == Raw(lines) && AllDefined(secs, vars) && PartsOf(secs, vars, parts)
    ensures Sections(lines).Failure? ==> err == Some(Sections(lines).error)
    ensures Sections(lines).Success? && err.Some? ==>
      err.value.UndefinedVariable? && FirstUndefined(Sections(lines).value, vars, err.value.name)
  {
    key, pending := "", "";
    raw, parts := "", map[];
    secs := [];
    PartsOfNone(vars);
    var i := 0;
    while i < |lines|
      invariant 0 <= i <= |lines| && ScanOk(Scan(key, pending, secs))
      invariant ScanFrom(Start, lines) == ScanFrom(Scan(key, pending, secs), lines[i..])
      invariant raw == Raw(lines[..i])
      invariant AllDefined(secs, vars) && PartsOf(secs, vars, parts)
    {
      var line := lines[i];
      ghost var cur := Scan(key, pending, secs);
      assert lines[i..][0] == line && lines[i..][1..] == lines[i + 1..];
      ScanStep(cur, lines[i..]);
      assert lines[..i + 1][..i] == lines[..i];
      raw := raw + line + "\n";
      var s := TrimSpace(line);
      if s == "" || StartsWith(s, CommentStart) {
        i := i + 1;
        continue;
      }
      if StartsWith(s, HeaderStart) {
        if |pending| > 0 {
          if key == "" {
            assert false;
          }
          var next, e := Record(key, pending, vars, parts, secs, true);
          if e.Some? {
            HeaderClosesUndefined(lines, i, cur, vars, e.value.name);
            parts, err := map[], e;
            return;
          }
          parts, secs := next, secs + [Section(key, pending)];
        }
        var m := HeaderKey(s);
        if m.Some? {
          key := m.value;
        }
        pending := "";
      } else {
        if key == "" {
          BodyWithoutKeyStops(lines, i, cur);
          parts, err := map[], Some(BodyWithoutKey);
          return;
        }
        pending := pending + line + "\n";
      }
      i := i + 1;
    }
    assert lines[..i] == lines && lines[i..] == [];
    err := None;
  }

  /**
   * `newMultipartReader`'s parts: the raw text, and the parts, each body
   * substituted when its section closes; or the first error.
   */
  method ReadParts(lines: seq<string>, vars: map<string, string>) returns (raw: string, parts: map<string, string>, err: Option<Error>)
    ensures Sections(lines).Failure? ==> err == Some(Sections(lines).error)
    ensures Sections(lines).Success? ==> (err.None? <==> AllDefined(Sections(lines).value, vars))
    ensures Sections(lines).Success? && err.Some? ==>
      err.value.UndefinedVariable? && FirstUndefined(Sections(lines).value, vars, err.value.name)
    ensures err.None? ==> raw == Raw(lines) && PartsOf(Sections(lines).value, vars, parts)
  {
    var key, pending;
    ghost var secs;
    raw, key, pending, parts, secs, err := ScanParts(lines, vars);
    if err.Some? {
      return;
    }
    if |pending| > 0 {
      var next, e := Record(key, pending, vars, parts, secs, true);
      if e.Some? {
        UndefinedIn(secs, Sections(lines).value, Section(key, pending), vars, e.value.name);
        parts, err := map[], e;
        return;
      }
      parts := next;
    }
  }

  // ----- The reader -----

  /** A reader over a multipart text: the raw text it was built from and the substituted part of each key. */
  class MultipartReader {
    var raw: string
    var parts: map<string, string>

    constructor (raw: string, parts: map<string, string>)
      ensures this.raw == raw && this.parts == parts
    {
      this.raw := raw;
      this.parts := parts;
    }

    /**
     * `NewMultipartReader`: scan the text's lines and build a reader, or report
     * the first error.
     */
    static method New(data: string, vars: map<string, string>) returns (reader: MultipartReader?, err: Option<Error>)
      ensures reader == null <==> err.Some?
      ensures Sections(ScanLines(data)).Failure? ==> err == Some(Sections(ScanLines(data)).error)
      ensures Sections(ScanLines(data)).Success? ==> (err.None? <==> AllDefined(Sections(ScanLines(data)).value, vars))
      ensures reader != null ==>
        fresh(reader) && reader.raw == Raw(ScanLines(data)) && PartsOf(Sections(ScanLines(data)).value, vars, reader.parts)
    {
      var raw, parts;
      raw, parts, err := ReadParts(ScanLines(data), vars);
      if err.Some? {
        return null, err;
      }
      reader := new MultipartReader(raw, parts);
    }

    /** `GetData`: the part stored under `key`, or nothing. */
    function GetData(key: string): (data: string)
      reads this
      ensures key in parts ==> data == parts[key]
      ensures key !in parts ==> data == []
    {
      if key in parts then parts[key] else []
    }

    /**
     * `GetMatcher`: the expected object stored under `key`, which is substituted
     * once more with no variables, so a placeholder left in it is an error.
     */
    method GetMatcher(key: string) returns (r: Result<Node, Error>)
      ensures key !in parts ==> r == Failure(NoSuchKey(key))
      ensures key in parts && Names(parts[key]) == {} ==> r == Success(Node(Object, parts[key]))
      ensures key in parts && Names(parts[key]) != {} ==>
        r.Failure? && r.error.UndefinedVariable? && r.error.name in Names(parts[key])
    {
      if key in parts {
        var replaced := Replace(parts[key], map[]);
        if replaced.Failure? {
          return Failure(replaced.error);
        }
        NoNamesUnchanged(parts[key], map[], replaced.value);
        return Success(Node(Object, replaced.value));
      }
      return Failure(NoSuchKey(key));
    }

    /**
     * `UpdateVars`: re-read the raw text with new variables. On success only the
     * parts change; on an error the reader is left as it was.
     */
    method UpdateVars(vars: map<string, string>) returns (err: Option<Error>)
      modifies this
      ensures raw == old(raw)
      ensures err.Some? ==> parts == old(parts)
      ensures Sections(ScanLines(raw)).Failure? ==> err == Some(Sections(ScanLines(raw)).error)
      ensures Sections(ScanLines(raw)).Success? ==> (err.None? <==> AllDefined(Sections(ScanLines(raw)).value, vars))
      ensures err.None? ==> PartsOf(Sections(ScanLines(raw)).value, vars, parts)
    {
      var nr;
      nr, err := New(raw, vars);
      if err.Some? {
        return;
      }
      parts := nr.parts;
    }
  }
}

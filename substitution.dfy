/**
 * Variable substitution: every `${{NAME}}` placeholder, NAME a run of word
 * characters, is replaced by the value of NAME; an undefined NAME is an error.
 */
module Substitution {
  import opened Wrappers
  import opened Text
  import opened Errors
  import opened Order

  /** The placeholder text for a name. */
  function Placeholder(name: string): (p: string)
    ensures |p| == |name| + 5 && p[0] == '$'
    ensures AllWordChars(name) ==> '$' !in p[1..]
  {
    var p := "${{" + name + "}}";
    assert forall i :: 1 <= i < |p| ==> p[i] in "{}" || p[i] == name[i - 3];
    p
  }

  /**
   * The name of the placeholder that starts `x`, if one does. `\w+` is greedy
   * and a word character is never '}', so the name is the whole word run after
   * "${{" and must be followed by "}}".
   */
  function PlaceholderStart(x: string): (r: Option<string>)
    ensures r.Some? ==> r.value != [] && AllWordChars(r.value) && StartsWith(x, Placeholder(r.value))
    ensures x == [] || x[0] != '$' ==> r.None?
  {
    if |x| < 3 || x[..3] != "${{" then None
    else
      var w := WordPrefix(x[3..]);
      if w != [] && StartsWith(x[3 + |w|..], "}}") then
        assert x[..|w| + 5] == x[..3] + x[3..][..|w|] + x[3 + |w|..][..2];
        Some(w)
      else None
  }

  /** A name followed by "}}" is the whole word run it starts. */
  lemma PlaceholderStartOf(n: string, rest: string)
    requires n != [] && AllWordChars(n)
    ensures PlaceholderStart(Placeholder(n) + rest) == Some(n)
  {
    var x := Placeholder(n) + rest;
    assert x[..3] == "${{";
    assert x[3..] == n + ("}}" + rest);
    WordPrefixOf(n, "}}" + rest);
    assert x[3 + |n|..] == "}}" + rest;
  }

  lemma {:induction false} WordPrefixOf(w: string, d: string)
    requires AllWordChars(w)
    requires d == [] || !IsWordChar(d[0])
    ensures WordPrefix(w + d) == w
  {
    if w != [] {
      assert (w + d)[1..] == w[1..] + d;
      WordPrefixOf(w[1..], d);
    }
  }

  /**
   * The names of all placeholders in `data`, what `FindAllSubmatch` collects. A
   * placeholder holds a single '$', at its start, so no two can overlap and the
   * placeholders are exactly those starting at some position.
   */
  function Names(data: string): (ns: set<string>)
    ensures data == [] ==> ns == {}
  {
    if data == [] then {}
    else
      (match PlaceholderStart(data) case Some(n) => {n} case None => {})
      + Names(data[1..])
  }

  /** A name is collected iff it is a word that occurs as a placeholder. */
  lemma {:induction false} NamesExactly(data: string, n: string)
    ensures n in Names(data) <==> n != [] && AllWordChars(n) && Occurs(data, Placeholder(n))
  {
    if data != [] {
      NamesExactly(data[1..], n);
      if n in Names(data) && PlaceholderStart(data) == Some(n) {
        assert data[0..] == data;
      }
      if n in Names(data[1..]) {
        var i :| 0 <= i <= |data[1..]| && StartsWith(data[1..][i..], Placeholder(n));
        assert data[1..][i..] == data[i + 1..];
      }
      if n != [] && AllWordChars(n) && Occurs(data, Placeholder(n)) {
        var i :| 0 <= i <= |data| && StartsWith(data[i..], Placeholder(n));
        if i == 0 {
          PlaceholderStartOf(n, data[|Placeholder(n)|..]);
          assert data == Placeholder(n) + data[|Placeholder(n)|..];
        } else {
          assert data[1..][i - 1..] == data[i..];
        }
      }
    }
  }

  /** Text without '$' holds no placeholder; in particular `{{...}}` without a leading '$' is none. */
  lemma {:induction false} NoDollarNoNames(data: string)
    requires '$' !in data
    ensures Names(data) == {}
  {
    if data != [] {
      assert data[1..] == data[1..];
      assert '$' !in data[1..] by {
        forall i | 0 <= i < |data[1..]| ensures data[1..][i] != '$' { assert data[1..][i] == data[i + 1]; }
      }
      NoDollarNoNames(data[1..]);
    }
  }

  /** `x` holds no '$'. */
  predicate DollarFree(x: string) { '$' !in x }

  /** Text before which no '$' stands contributes no name. */
  lemma {:induction false} NamesSkip(x: string, rest: string)
    requires DollarFree(x)
    ensures Names(x + rest) == Names(rest)
  {
    if x != [] {
      assert (x + rest)[1..] == x[1..] + rest;
      assert (x + rest)[0] == x[0] && x[0] in x;
      assert DollarFree(x[1..]) by {
        forall i | 0 <= i < |x[1..]| ensures x[1..][i] != '$' { assert x[1..][i] == x[i + 1]; }
      }
      NamesSkip(x[1..], rest);
    } else {
      assert x + rest == rest;
    }
  }

  /** Replace the placeholders of the names in `ord`, one name after another, in that order. */
  function ReplaceInOrder(data: string, ord: seq<string>, vars: map<string, string>): string
    requires forall i :: 0 <= i < |ord| ==> ord[i] in vars
  {
    if ord == [] then data
    else
      var last := ord[|ord| - 1];
      ReplaceAll(ReplaceInOrder(data, ord[..|ord| - 1], vars), Placeholder(last), vars[last])
  }

  /**
   * `out` is what substituting every name of `data` gives, in one of the orders
   * Go's map iteration may take.
   */
  ghost predicate ReplacesTo(data: string, vars: map<string, string>, out: string) {
    && (forall n :: n in Names(data) ==> n in vars)
    && exists ord :: IsEnumeration(ord, Names(data)) && ReplaceInOrder(data, ord, vars) == out
  }

  /** The first loop of `Replace`: the set of names the matches hold. */
  method CollectNames(data: string) returns (ns: set<string>)
    ensures ns == Names(data)
  {
    ns := {};
    var i := 0;
    while i < |data|
      invariant 0 <= i <= |data|
      invariant ns + Names(data[i..]) == Names(data)
    {
      assert data[i..][1..] == data[i + 1..];
      match PlaceholderStart(data[i..]) {
        case Some(n) => ns := ns + {n};
        case None =>
      }
      i := i + 1;
    }
  }

  /** The second loop of `Replace`: the names listed in map-iteration order, which Go leaves unspecified. */
  method ListNames(ns: set<string>) returns (names: seq<string>)
    ensures IsEnumeration(names, ns)
  {
    names := [];
    var left := ns;
    while left != {}
      invariant left <= ns && Distinct(names)
      invariant forall x :: x in names <==> x in ns && x !in left
      decreases |left|
    {
      var n :| n in left;
      names := names + [n];
      left := left - {n};
    }
  }

  /**
   * `Replace`: collect the placeholder names, list them in an arbitrary order,
   * then replace each name's placeholders by its value; the first undefined name
   * met is the error.
   */
  method Replace(data: string, vars: map<string, string>) returns (r: Result<string, Error>)
    ensures r.Failure? <==> exists n :: n in Names(data) && n !in vars
    ensures r.Failure? ==> r.error.UndefinedVariable? && r.error.name in Names(data) && r.error.name !in vars
    ensures r.Success? ==> ReplacesTo(data, vars, r.value)
    ensures r.Success? && EveryDollarOpens(data) && DollarFreeValues(vars) ==>
      r.value == Subst(data, vars) && Names(r.value) == {}
  {
    var ns := CollectNames(data);
    var names := ListNames(ns);
    var result := data;
    var k := 0;
    while k < |names|
      invariant 0 <= k <= |names|
      invariant forall j :: 0 <= j < k ==> names[j] in vars
      invariant result == ReplaceInOrder(data, names[..k], vars)
    {
      var name := names[k];
      if name !in vars {
        return Failure(UndefinedVariable(name));
      }
      assert names[..k + 1][..k] == names[..k];
      result := ReplaceAll(result, Placeholder(name), vars[name]);
      k := k + 1;
    }
    assert names[..k] == names;
    if EveryDollarOpens(data) && DollarFreeValues(vars) {
      OrderIrrelevant(data, names, vars);
      SubstitutionComplete(data, vars, result);
    }
    return Success(result);
  }

  /** Text with no placeholder comes back unchanged, whatever the variables. */
  lemma NoNamesUnchanged(data: string, vars: map<string, string>, out: string)
    requires Names(data) == {}
    ensures ReplacesTo(data, vars, out) <==> out == data
  {
    if out == data {
      assert IsEnumeration([], Names(data)) && ReplaceInOrder(data, [], vars) == data;
    }
    if ReplacesTo(data, vars, out) {
      var ord :| IsEnumeration(ord, Names(data)) && ReplaceInOrder(data, ord, vars) == out;
      EnumerationSize(ord, Names(data));
    }
  }

  /** The text of `segs` with `sep` between neighbours. */
  function JoinedBy(segs: seq<string>, sep: string): string
    requires segs != []
  {
    if |segs| == 1 then segs[0] else segs[0] + sep + JoinedBy(segs[1..], sep)
  }

  /** A pattern that opens with '$' does not occur in text without '$'. */
  lemma DollarFreeNoOccurrence(x: string, p: string)
    requires DollarFree(x) && |p| > 0 && p[0] == '$'
    ensures !Occurs(x, p)
  {
    forall i | 0 <= i <= |x| ensures !StartsWith(x[i..], p) {
      if i < |x| {
        assert x[i..][0] == x[i] && x[i] in x;
      }
    }
  }

  /** A pattern with a single '$', at its start, cannot begin inside `x` + pattern minus its last character. */
  lemma NoEarlyOccurrence(x: string, p: string)
    requires DollarFree(x) && |p| > 0 && p[0] == '$' && '$' !in p[1..]
    ensures !Occurs(x + p[..|p| - 1], p)
  {
    var y := x + p[..|p| - 1];
    forall i | 0 <= i <= |y| ensures !StartsWith(y[i..], p) {
      if i < |x| {
        assert y[i..][0] == x[i] && x[i] in x;
      } else if i > |x| && i < |y| {
        assert y[i..][0] == p[1..][i - |x| - 1] && p[1..][i - |x| - 1] in p[1..];
      }
    }
  }

  /** Every occurrence of a placeholder is replaced, when no other '$' stands between them. */
  lemma {:induction false} ReplaceEveryOccurrence(segs: seq<string>, n: string, v: string)
    requires segs != [] && forall i :: 0 <= i < |segs| ==> DollarFree(segs[i])
    requires n != [] && AllWordChars(n)
    ensures ReplaceAll(JoinedBy(segs, Placeholder(n)), Placeholder(n), v) == JoinedBy(segs, v)
  {
    var p := Placeholder(n);
    if |segs| == 1 {
      assert DollarFree(segs[0]);
      DollarFreeNoOccurrence(segs[0], p);
      ReplaceAllAbsent(segs[0], p, v);
    } else {
      var tail := JoinedBy(segs[1..], p);
      assert DollarFree(segs[0]);
      ReplaceEveryOccurrence(segs[1..], n, v);
      NoEarlyOccurrence(segs[0], p);
      ReplaceAllFirst(segs[0], tail, p, v);
    }
  }

  /** A placeholder adds its name to the names of the text after it. */
  lemma NamesAtPlaceholder(n: string, tail: string)
    requires n != [] && AllWordChars(n)
    ensures Names(Placeholder(n) + tail) == {n} + Names(tail)
  {
    var p := Placeholder(n);
    var x := p + tail;
    PlaceholderStartOf(n, tail);
    assert x[1..] == p[1..] + tail;
    assert DollarFree(p[1..]);
    NamesSkip(p[1..], tail);
    assert Names(x) == {n} + Names(x[1..]);
  }

  /** The only name in such a text is the one between the segments. */
  lemma {:induction false} NamesOfJoined(segs: seq<string>, n: string)
    requires segs != [] && forall i :: 0 <= i < |segs| ==> DollarFree(segs[i])
    requires n != [] && AllWordChars(n)
    ensures Names(JoinedBy(segs, Placeholder(n))) == if |segs| == 1 then {} else {n}
  {
    var p := Placeholder(n);
    if |segs| == 1 {
      assert DollarFree(segs[0]);
      NoDollarNoNames(segs[0]);
    } else {
      var tail := JoinedBy(segs[1..], p);
      assert DollarFree(segs[0]);
      NamesOfJoined(segs[1..], n);
      assert JoinedBy(segs, p) == segs[0] + (p + tail);
      NamesSkip(segs[0], p + tail);
      NamesAtPlaceholder(n, tail);
    }
  }

  /** A one-element set has one enumeration. */
  lemma OnlyEnumerationOfOne(ord: seq<string>, n: string)
    requires IsEnumeration(ord, {n})
    ensures ord == [n]
  {
    EnumerationSize(ord, {n});
    assert ord[0] in {n};
  }

  lemma ReplaceInOrderOne(data: string, n: string, vars: map<string, string>)
    requires n in vars
    ensures ReplaceInOrder(data, [n], vars) == ReplaceAll(data, Placeholder(n), vars[n])
  {
    assert [n][..0] == [];
  }

  lemma ReplaceInOrderTwo(data: string, m: string, n: string, vars: map<string, string>)
    requires m in vars && n in vars
    ensures ReplaceInOrder(data, [m, n], vars)
         == ReplaceAll(ReplaceAll(data, Placeholder(m), vars[m]), Placeholder(n), vars[n])
  {
    assert [m, n][..1] == [m];
    ReplaceInOrderOne(data, m, vars);
  }

  /**
   * A text whose only placeholders are several of one defined name substitutes
   * to that text with every one of them replaced by the value.
   */
  lemma OneNameEverywhere(segs: seq<string>, n: string, vars: map<string, string>, out: string)
    requires |segs| >= 2 && forall i :: 0 <= i < |segs| ==> DollarFree(segs[i])
    requires n != [] && AllWordChars(n) && n in vars
    ensures ReplacesTo(JoinedBy(segs, Placeholder(n)), vars, out) <==> out == JoinedBy(segs, vars[n])
  {
    var data := JoinedBy(segs, Placeholder(n));
    NamesOfJoined(segs, n);
    ReplaceEveryOccurrence(segs, n, vars[n]);
    ReplaceInOrderOne(data, n, vars);
    assert IsEnumeration([n], Names(data));
    if ReplacesTo(data, vars, out) {
      var ord :| IsEnumeration(ord, Names(data)) && ReplaceInOrder(data, ord, vars) == out;
      OnlyEnumerationOfOne(ord, n);
    }
  }

  /*
   * One left-to-right pass: each placeholder whose name `vars` defines becomes
   * its value, every other character is copied. This is the reference that
   * `Replace`'s name-by-name rewriting is compared with.
   */
  function Subst(data: string, vars: map<string, string>): string
    decreases |data|
  {
    if data == [] then []
    else
      match PlaceholderStart(data)
      case Some(n) =>
        (if n in vars then vars[n] else Placeholder(n)) + Subst(data[|n| + 5..], vars)
      case None => [data[0]] + Subst(data[1..], vars)
  }

  /** Every '$' of `data` opens a placeholder: the text has no stray '$'. */
  predicate EveryDollarOpens(data: string) {
    forall i :: 0 <= i < |data| && data[i] == '$' ==> PlaceholderStart(data[i..]).Some?
  }

  /** No value holds a '$'. */
  predicate DollarFreeValues(vars: map<string, string>) {
    forall n :: n in vars ==> DollarFree(vars[n])
  }

  lemma EveryDollarOpensSuffix(data: string, k: nat)
    requires EveryDollarOpens(data) && k <= |data|
    ensures EveryDollarOpens(data[k..])
  {
    forall i | 0 <= i < |data[k..]| && data[k..][i] == '$' ensures PlaceholderStart(data[k..][i..]).Some? {
      assert data[k..][i..] == data[k + i..];
    }
  }

  /** The text after a placeholder names no more than the whole text. */
  lemma {:induction false} NamesSuffix(data: string, k: nat)
    requires k <= |data|
    ensures Names(data[k..]) <= Names(data)
  {
    if k > 0 {
      NamesSuffix(data[1..], k - 1);
      assert data[1..][k - 1..] == data[k..];
    }
  }

  /** Text beginning with one placeholder does not begin with another's. */
  lemma OtherPlaceholderNotAtStart(m: string, n: string, y: string)
    requires m != [] && AllWordChars(m) && n != [] && AllWordChars(n) && m != n
    ensures !StartsWith(Placeholder(m) + y, Placeholder(n))
  {
    var x := Placeholder(m) + y;
    PlaceholderStartOf(m, y);
    if StartsWith(x, Placeholder(n)) {
      assert x == Placeholder(n) + x[|Placeholder(n)|..];
      PlaceholderStartOf(n, x[|Placeholder(n)|..]);
    }
  }

  /** `ReplaceAll` copies a '$'-free prefix, since every placeholder opens with '$'. */
  lemma {:induction false} ReplaceAllDollarFreePrefix(x: string, y: string, n: string, v: string)
    requires DollarFree(x)
    ensures ReplaceAll(x + y, Placeholder(n), v) == x + ReplaceAll(y, Placeholder(n), v)
  {
    if x != [] {
      var p := Placeholder(n);
      assert (x + y)[0] == x[0] && x[0] in x;
      ReplaceAllSkip(x + y, p, v);
      assert (x + y)[1..] == x[1..] + y;
      assert DollarFree(x[1..]) by {
        forall i | 0 <= i < |x[1..]| ensures x[1..][i] != '$' { assert x[1..][i] == x[i + 1]; }
      }
      ReplaceAllDollarFreePrefix(x[1..], y, n, v);
    } else {
      assert x + y == y;
    }
  }

  /** `ReplaceAll` rewrites a placeholder at the start and goes on after it. */
  lemma ReplaceAllAtPlaceholder(n: string, y: string, v: string)
    ensures ReplaceAll(Placeholder(n) + y, Placeholder(n), v) == v + ReplaceAll(y, Placeholder(n), v)
  {
    var p := Placeholder(n);
    assert (p + y)[..|p|] == p && (p + y)[|p|..] == y;
  }

  /** `ReplaceAll` copies a placeholder of another name. */
  lemma ReplaceAllOtherPlaceholder(m: string, n: string, y: string, v: string)
    requires m != [] && AllWordChars(m) && n != [] && AllWordChars(n) && m != n
    ensures ReplaceAll(Placeholder(m) + y, Placeholder(n), v) == Placeholder(m) + ReplaceAll(y, Placeholder(n), v)
  {
    var pm, pn := Placeholder(m), Placeholder(n);
    OtherPlaceholderNotAtStart(m, n, y);
    calc {
      ReplaceAll(pm + y, pn, v);
      == { ReplaceAllSkip(pm + y, pn, v); assert (pm + y)[1..] == pm[1..] + y; }
      [pm[0]] + ReplaceAll(pm[1..] + y, pn, v);
      == { ReplaceAllDollarFreePrefix(pm[1..], y, n, v); }
      [pm[0]] + (pm[1..] + ReplaceAll(y, pn, v));
      == { assert pm == [pm[0]] + pm[1..]; }
      pm + ReplaceAll(y, pn, v);
    }
  }

  /** One step of the pass at a placeholder. */
  lemma SubstAtPlaceholder(data: string, vars: map<string, string>, m: string)
    requires PlaceholderStart(data) == Some(m)
    ensures Subst(data, vars) == (if m in vars then vars[m] else Placeholder(m)) + Subst(data[|m| + 5..], vars)
  {
  }

  /** One step of the pass elsewhere. */
  lemma SubstAtOther(data: string, vars: map<string, string>)
    requires data != [] && PlaceholderStart(data).None?
    ensures Subst(data, vars) == [data[0]] + Subst(data[1..], vars)
  {
  }

  /**
   * Rewriting one more undefined name `n` after a pass is the pass with `n`
   * defined: no new placeholder arises, because neither the copied text nor
   * the values bring a '$' that does not already open a placeholder.
   */
  lemma {:induction false} SubstThenReplace(data: string, vars: map<string, string>, n: string, v: string)
    requires EveryDollarOpens(data) && DollarFreeValues(vars) && DollarFree(v)
    requires n != [] && AllWordChars(n) && n !in vars
    ensures ReplaceAll(Subst(data, vars), Placeholder(n), v) == Subst(data, vars[n := v])
    decreases |data|
  {
    if data != [] {
      match PlaceholderStart(data)
      case Some(m) =>
        var rest := data[|m| + 5..];
        EveryDollarOpensSuffix(data, |m| + 5);
        SubstThenReplace(rest, vars, n, v);
        SubstAtPlaceholder(data, vars, m);
        SubstAtPlaceholder(data, vars[n := v], m);
        if m in vars {
          ReplaceAllDollarFreePrefix(vars[m], Subst(rest, vars), n, v);
        } else if m == n {
          ReplaceAllAtPlaceholder(n, Subst(rest, vars), v);
        } else {
          ReplaceAllOtherPlaceholder(m, n, Subst(rest, vars), v);
        }
      case None =>
        assert data[0] != '$' by { assert data[0..] == data; }
        EveryDollarOpensSuffix(data, 1);
        SubstThenReplace(data[1..], vars, n, v);
        SubstAtOther(data, vars);
        SubstAtOther(data, vars[n := v]);
        ReplaceAllDollarFreePrefix([data[0]], Subst(data[1..], vars), n, v);
    }
  }

  /** A pass with no variables changes nothing. */
  lemma {:induction false} SubstNothing(data: string)
    ensures Subst(data, map[]) == data
    decreases |data|
  {
    if data != [] {
      match PlaceholderStart(data)
      case Some(m) =>
        SubstAtPlaceholder(data, map[], m);
        SubstNothing(data[|m| + 5..]);
        assert data == data[..|m| + 5] + data[|m| + 5..];
      case None =>
        SubstAtOther(data, map[]);
        SubstNothing(data[1..]);
        assert data == [data[0]] + data[1..];
    }
  }

  /** The pass only looks at the variables the text names. */
  lemma {:induction false} SubstAgree(data: string, vars1: map<string, string>, vars2: map<string, string>)
    requires forall n :: n in Names(data) ==> (n in vars1 <==> n in vars2) && (n in vars1 ==> vars1[n] == vars2[n])
    ensures Subst(data, vars1) == Subst(data, vars2)
    decreases |data|
  {
    if data != [] {
      match PlaceholderStart(data)
      case Some(m) =>
        assert m in Names(data);
        NamesSuffix(data, |m| + 5);
        SubstAgree(data[|m| + 5..], vars1, vars2);
        SubstAtPlaceholder(data, vars1, m);
        SubstAtPlaceholder(data, vars2, m);
      case None =>
        NamesSuffix(data, 1);
        SubstAgree(data[1..], vars1, vars2);
        SubstAtOther(data, vars1);
        SubstAtOther(data, vars2);
    }
  }

  /** The variables of `vars` that `ord` lists. */
  function Restrict(vars: map<string, string>, ord: seq<string>): (r: map<string, string>)
    requires forall i :: 0 <= i < |ord| ==> ord[i] in vars
    ensures forall n :: n in r <==> n in ord
    ensures forall n :: n in r ==> r[n] == vars[n]
  {
    if ord == [] then map[]
    else
      var last := ord[|ord| - 1];
      var r := Restrict(vars, ord[..|ord| - 1]);
      assert forall n :: n in ord <==> n in ord[..|ord| - 1] || n == last;
      r[last := vars[last]]
  }

  /** Rewriting the names of `ord` one after another is one pass over the variables `ord` lists. */
  lemma {:induction false} ReplaceInOrderIsPass(data: string, ord: seq<string>, vars: map<string, string>)
    requires EveryDollarOpens(data) && DollarFreeValues(vars) && Distinct(ord)
    requires forall i :: 0 <= i < |ord| ==> ord[i] in vars && ord[i] != [] && AllWordChars(ord[i])
    ensures ReplaceInOrder(data, ord, vars) == Subst(data, Restrict(vars, ord))
  {
    if ord == [] {
      SubstNothing(data);
    } else {
      var init := ord[..|ord| - 1];
      var last := ord[|ord| - 1];
      assert Distinct(init) by {
        forall i, j | 0 <= i < j < |init| ensures init[i] != init[j] {
          assert init[i] == ord[i] && init[j] == ord[j];
        }
      }
      ReplaceInOrderIsPass(data, init, vars);
      assert last !in init by {
        forall i | 0 <= i < |init| ensures init[i] != last { assert init[i] == ord[i]; }
      }
      SubstThenReplace(data, Restrict(vars, init), last, vars[last]);
      assert Restrict(vars, init)[last := vars[last]] == Restrict(vars, ord);
    }
  }

  /**
   * With every name defined, no stray '$' in the text and no '$' in a value,
   * the order Go's map iteration takes does not matter: every order gives the
   * one-pass result.
   */
  lemma OrderIrrelevant(data: string, ord: seq<string>, vars: map<string, string>)
    requires EveryDollarOpens(data) && DollarFreeValues(vars)
    requires IsEnumeration(ord, Names(data)) && forall n :: n in Names(data) ==> n in vars
    ensures forall i :: 0 <= i < |ord| ==> ord[i] in vars
    ensures ReplaceInOrder(data, ord, vars) == Subst(data, vars)
  {
    forall i | 0 <= i < |ord| ensures ord[i] in vars && ord[i] != [] && AllWordChars(ord[i]) {
      assert ord[i] in Names(data);
      NamesExactly(data, ord[i]);
    }
    ReplaceInOrderIsPass(data, ord, vars);
    SubstAgree(data, Restrict(vars, ord), vars);
  }

  /** Under the same conditions no placeholder is left: the result holds no '$'. */
  lemma {:induction false} SubstLeavesNoDollar(data: string, vars: map<string, string>)
    requires EveryDollarOpens(data) && DollarFreeValues(vars)
    requires forall n :: n in Names(data) ==> n in vars
    ensures DollarFree(Subst(data, vars))
    decreases |data|
  {
    if data != [] {
      match PlaceholderStart(data)
      case Some(m) =>
        assert m in Names(data);
        NamesSuffix(data, |m| + 5);
        EveryDollarOpensSuffix(data, |m| + 5);
        SubstLeavesNoDollar(data[|m| + 5..], vars);
        SubstAtPlaceholder(data, vars, m);
        assert DollarFree(vars[m]);
      case None =>
        assert data[0] != '$' by { assert data[0..] == data; }
        NamesSuffix(data, 1);
        EveryDollarOpensSuffix(data, 1);
        SubstLeavesNoDollar(data[1..], vars);
        SubstAtOther(data, vars);
    }
  }

  /**
   * Substitution is complete and order-independent: under these conditions the
   * possible results are exactly the one-pass result, and it names no variable.
   */
  lemma SubstitutionComplete(data: string, vars: map<string, string>, out: string)
    requires EveryDollarOpens(data) && DollarFreeValues(vars)
    requires forall n :: n in Names(data) ==> n in vars
    ensures ReplacesTo(data, vars, out) <==> out == Subst(data, vars)
    ensures Names(Subst(data, vars)) == {}
  {
    var ord := Enumerate(Names(data));
    OrderIrrelevant(data, ord, vars);
    if ReplacesTo(data, vars, out) {
      var o :| IsEnumeration(o, Names(data)) && ReplaceInOrder(data, o, vars) == out;
      OrderIrrelevant(data, o, vars);
    }
    SubstLeavesNoDollar(data, vars);
    NoDollarNoNames(Subst(data, vars));
  }

  /** The pass copies text without '$' unchanged, `{{...}}` expressions included. */
  lemma {:induction false} SubstKeepsDollarFree(x: string, rest: string, vars: map<string, string>)
    requires DollarFree(x)
    ensures Subst(x + rest, vars) == x + Subst(rest, vars)
  {
    if x != [] {
      assert (x + rest)[0] == x[0] && x[0] in x;
      assert DollarFree(x[1..]) by {
        forall i | 0 <= i < |x[1..]| ensures x[1..][i] != '$' { assert x[1..][i] == x[i + 1]; }
      }
      calc {
        Subst(x + rest, vars);
        == { SubstAtOther(x + rest, vars); assert (x + rest)[1..] == x[1..] + rest; }
        [x[0]] + Subst(x[1..] + rest, vars);
        == { SubstKeepsDollarFree(x[1..], rest, vars); }
        [x[0]] + (x[1..] + Subst(rest, vars));
        == { assert x == [x[0]] + x[1..]; }
        x + Subst(rest, vars);
      }
    } else {
      assert x + rest == rest;
    }
  }

  /** The text of a placeholder after its '$'. */
  function Braced(n: string): (t: string)
    ensures "$" + t == Placeholder(n)
    ensures AllWordChars(n) ==> DollarFree(t)
  {
    var t := "{{" + n + "}}";
    assert Placeholder(n)[1..] == t;
    t
  }

  /** A '$' standing before another '$' opens no placeholder, and `ReplaceAll` copies it. */
  lemma StrayDollar(y: string, n: string, v: string)
    requires y != [] && y[0] == '$' && n != [] && AllWordChars(n)
    ensures PlaceholderStart("$" + y).None?
    ensures ReplaceAll("$" + y, Placeholder(n), v) == "$" + ReplaceAll(y, Placeholder(n), v)
  {
    var s, p := "$" + y, Placeholder(n);
    assert s[1] == '$' && s[1..] == y;
    assert p[1] != '$' by { assert p[1..][0] == p[1]; }
    if |p| <= |s| {
      assert s[..|p|][1] == s[1];
    }
    ReplaceAllSkip(s, p, v);
    if |s| >= 3 {
      assert s[..3][1] == '$';
    }
  }

  /**
   * A stray '$' followed by `${{a}}`, then `{{b}}` and `${{b}}`: once `a` is
   * rewritten to the empty text, the stray '$' and `{{b}}` form a second `b`
   * placeholder.
   */
  function StrayDollarText(a: string, b: string): string {
    "$" + (Placeholder(a) + (Braced(b) + Placeholder(b)))
  }

  lemma StrayDollarTextNames(a: string, b: string)
    requires a != [] && AllWordChars(a) && b != [] && AllWordChars(b)
    ensures Names(StrayDollarText(a, b)) == {a, b}
    ensures !EveryDollarOpens(StrayDollarText(a, b))
  {
    var pa, pb, data := Placeholder(a), Placeholder(b), StrayDollarText(a, b);
    var y := pa + (Braced(b) + pb);
    assert y[0] == '$';
    StrayDollar(y, a, "");
    assert data[1..] == y && data[0] == '$' && data[0..] == data;
    NamesAtPlaceholder(a, Braced(b) + pb);
    NamesSkip(Braced(b), pb);
    NamesAtPlaceholder(b, []);
    assert pb + [] == pb;
  }

  /** Rewriting `a` to the empty text joins the stray '$' and `{{b}}` into a second `b` placeholder. */
  lemma StrayDollarJoins(a: string, b: string)
    requires a != [] && AllWordChars(a) && b != [] && AllWordChars(b) && a != b
    ensures ReplaceAll(StrayDollarText(a, b), Placeholder(a), "") == Placeholder(b) + Placeholder(b)
  {
    var pa, pb, br := Placeholder(a), Placeholder(b), Braced(b);
    var y := pa + (br + pb);
    assert y[0] == '$';
    calc {
      ReplaceAll(StrayDollarText(a, b), pa, "");
      == { StrayDollar(y, a, ""); }
      "$" + ReplaceAll(pa + (br + pb), pa, "");
      == { ReplaceAllAtPlaceholder(a, br + pb, ""); }
      "$" + ReplaceAll(br + pb, pa, "");
      == { ReplaceAllDollarFreePrefix(br, pb + [], a, ""); assert pb + [] == pb; }
      "$" + (br + ReplaceAll(pb + [], pa, ""));
      == { assert pb + [] == pb; ReplaceAllOtherPlaceholder(b, a, [], ""); }
      "$" + (br + (pb + ReplaceAll([], pa, "")));
      == { assert ReplaceAll([], pa, "") == []; assert pb + [] == pb; }
      "$" + (br + pb);
      == { assert "$" + (br + pb) == ("$" + br) + pb; }
      pb + pb;
    }
  }

  /** Rewriting `a` first leaves two `b` placeholders, both then rewritten. */
  lemma StrayDollarAFirst(a: string, b: string, v: string)
    requires a != [] && AllWordChars(a) && b != [] && AllWordChars(b) && a != b
    ensures ReplaceInOrder(StrayDollarText(a, b), [a, b], map[a := "", b := v]) == v + v
  {
    var pb := Placeholder(b);
    var vars := map[a := "", b := v];
    StrayDollarJoins(a, b);
    calc {
      ReplaceAll(pb + pb, pb, v);
      == { ReplaceAllAtPlaceholder(b, pb, v); }
      v + ReplaceAll(pb + [], pb, v);
      == { ReplaceAllAtPlaceholder(b, [], v); assert pb + [] == pb; }
      v + v;
    }
    assert vars[a] == "" && vars[b] == v;
    ReplaceInOrderTwo(StrayDollarText(a, b), a, b, vars);
  }

  /** Rewriting `b` first rewrites its one placeholder; the stray '$' and `{{b}}` stay. */
  lemma StrayDollarBFirst(a: string, b: string, v: string)
    requires a != [] && AllWordChars(a) && b != [] && AllWordChars(b) && a != b
    requires DollarFree(v)
    ensures ReplaceInOrder(StrayDollarText(a, b), [b, a], map[a := "", b := v]) == "$" + (Braced(b) + v)
  {
    var pa, pb, br := Placeholder(a), Placeholder(b), Braced(b);
    var vars := map[a := "", b := v];
    var y := pa + (br + pb);
    assert y[0] == '$';
    calc {
      ReplaceAll(StrayDollarText(a, b), pb, v);
      == { StrayDollar(y, b, v); }
      "$" + ReplaceAll(pa + (br + pb), pb, v);
      == { ReplaceAllOtherPlaceholder(a, b, br + pb, v); }
      "$" + (pa + ReplaceAll(br + pb, pb, v));
      == { ReplaceAllDollarFreePrefix(br, pb + [], b, v); assert pb + [] == pb; }
      "$" + (pa + (br + ReplaceAll(pb + [], pb, v)));
      == { ReplaceAllAtPlaceholder(b, [], v); assert v + [] == v; }
      "$" + (pa + (br + v));
    }
    var z := pa + (br + v);
    assert z[0] == '$';
    assert DollarFree(br + v);
    calc {
      ReplaceAll("$" + z, pa, "");
      == { StrayDollar(z, a, ""); }
      "$" + ReplaceAll(pa + (br + v), pa, "");
      == { ReplaceAllAtPlaceholder(a, br + v, ""); }
      "$" + ReplaceAll(br + v, pa, "");
      == { ReplaceAllDollarFreePrefix(br + v, [], a, ""); assert br + v + [] == br + v; }
      "$" + (br + v);
    }
    assert vars[a] == "" && vars[b] == v;
    ReplaceInOrderTwo(StrayDollarText(a, b), b, a, vars);
  }

  /**
   * Without the conditions the order can matter: for the text
   * `$${{a}}{{b}}${{b}}`, with `a` empty and `b` any '$'-free value, the two
   * orders Go's map iteration may take give two different results.
   */
  lemma OrderMatters(a: string, b: string, v: string)
    requires a != [] && AllWordChars(a) && b != [] && AllWordChars(b) && a != b
    requires DollarFree(v)
    ensures DollarFreeValues(map[a := "", b := v]) && !EveryDollarOpens(StrayDollarText(a, b))
    ensures ReplacesTo(StrayDollarText(a, b), map[a := "", b := v], v + v)
    ensures ReplacesTo(StrayDollarText(a, b), map[a := "", b := v], "$" + (Braced(b) + v))
    ensures v + v != "$" + (Braced(b) + v)
  {
    var data, vars := StrayDollarText(a, b), map[a := "", b := v];
    StrayDollarTextNames(a, b);
    StrayDollarAFirst(a, b, v);
    StrayDollarBFirst(a, b, v);
    assert IsEnumeration([a, b], Names(data));
    assert IsEnumeration([b, a], Names(data));
    assert "$" + (Braced(b) + v) != v + v by {
      if v == [] {
        assert |"$" + (Braced(b) + v)| > 0;
      } else {
        assert (v + v)[0] == v[0] && v[0] in v;
      }
    }
  }
}

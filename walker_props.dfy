/**
 * What the walker promises, stated without reference to the order in which Go
 * visits the keys of a map.
 */
module WalkProperties {
  import opened Wrappers
  import opened Text
  import opened Default
  import opened Errors
  import opened Matchers
  import opened Expressions
  import opened Correlation
  import opened Order
  import opened Walker

  /** Dispatch on the actual type: a Null or missing actual always matches; an unsuitable expected type is an error. */
  lemma DispatchOnActualType(lib: Library, parser: Parser, path: string, exp: Node, act: Node)
    requires parser.Valid()
    ensures act.typ in {Null, NotExist} ==> Walk(lib, parser, path, exp, act) == Matched
    ensures act.typ == String && exp.typ != String ==>
      !Walk(lib, parser, path, exp, act).matched && Walk(lib, parser, path, exp, act).err == Some(StringTypeMismatch(exp.typ))
    ensures act.typ == Boolean && exp.typ != Boolean ==>
      !Walk(lib, parser, path, exp, act).matched && Walk(lib, parser, path, exp, act).err == Some(BooleanTypeMismatch(exp.typ))
    ensures act.typ == Number && lib.parseFloat(act.value).Some? && exp.typ !in {String, Number} ==>
      !Walk(lib, parser, path, exp, act).matched && Walk(lib, parser, path, exp, act).err == Some(NumberTypeMismatch(exp.typ))
    ensures act.typ == Number && lib.parseFloat(act.value).None? ==>
      Walk(lib, parser, path, exp, act).err == Some(FloatSyntax(act.value))
    ensures act.typ == Array && exp.typ !in {String, Array} ==>
      !Walk(lib, parser, path, exp, act).matched && Walk(lib, parser, path, exp, act).err == Some(ArrayTypeMismatch(exp.typ))
  {
  }

  /** A literal expected string (no expression form) matches exactly the equal actual string, and never errs. */
  lemma LiteralStringIsEquality(lib: Library, parser: Parser, path: string, exp: Node, act: Node)
    requires parser.Valid() && exp.typ == String && act.typ == String
    requires exp.value != EmptyPattern && exp.value != NotEmptyPattern && ParseTimestamp(exp.value).None?
    ensures Passed(Walk(lib, parser, path, exp, act)) <==> act.value == exp.value
    ensures Walk(lib, parser, path, exp, act).err.None?
  {
    PlainTextIsEquality(lib, exp.value);
  }

  /** `{{BeEmpty()}}` and `{{Not(BeEmpty())}}` against a string test its emptiness. */
  lemma EmptinessOfStrings(lib: Library, parser: Parser, path: string, exp: Node, act: Node)
    requires parser.Valid() && exp.typ == String && act.typ == String
    ensures exp.value == EmptyPattern ==> (Passed(Walk(lib, parser, path, exp, act)) <==> act.value == [])
    ensures exp.value == NotEmptyPattern ==> (Passed(Walk(lib, parser, path, exp, act)) <==> act.value != [])
  {
  }

  /** Two booleans that both read as booleans match exactly when they read alike, letter case aside. */
  lemma BooleanEquality(lib: Library, parser: Parser, path: string, exp: Node, act: Node)
    requires parser.Valid() && exp.typ == Boolean && act.typ == Boolean
    ensures ToBool(exp.value).Some? && ToBool(act.value).Some? ==>
      (Passed(Walk(lib, parser, path, exp, act)) <==> ToBool(exp.value) == ToBool(act.value))
    ensures ToBool(exp.value).None? ==> Walk(lib, parser, path, exp, act).err == Some(BoolSyntax(exp.value))
    ensures ToBool(exp.value).Some? && ToBool(act.value).None? ==>
      Walk(lib, parser, path, exp, act).err == Some(BoolSyntax(act.value))
    ensures AsciiLower(exp.value) == AsciiLower(act.value) && ToBool(exp.value).Some? ==>
      Walk(lib, parser, path, exp, act) == Matched
  {
    if AsciiLower(exp.value) == AsciiLower(act.value) {
      ToBoolIgnoresCase(exp.value, act.value);
    }
  }

  /** Two numbers are compared with the fixed tolerance 0.05 of the expected value. */
  lemma NumberTolerance(lib: Library, parser: Parser, path: string, exp: Node, act: Node)
    requires parser.Valid() && exp.typ == Number && act.typ == Number
    requires lib.parseFloat(exp.value).Some? && lib.parseFloat(act.value).Some?
    ensures Passed(Walk(lib, parser, path, exp, act)) <==>
      lib.numerically("~", [lib.parseFloat(exp.value).value, 0.05], lib.parseFloat(act.value).value).Pass?
  {
  }

  /**
   * A number expression against a number: the outcome is what the comparison
   * concludes, but the matcher handed back is a failure matcher even when it
   * passes.
   */
  lemma NumberExpressionOutcome(lib: Library, parser: Parser, path: string, exp: Node, act: Node)
    requires parser.Valid() && exp.typ == String && act.typ == Number && lib.parseFloat(act.value).Some?
    requires CreateNumberMatcher(lib, exp.value).Success?
    ensures Walk(lib, parser, path, exp, act).matcher.FailureMatcher?
    ensures Passed(Walk(lib, parser, path, exp, act)) <==>
      lib.numerically(CreateNumberMatcher(lib, exp.value).value.comparator, CreateNumberMatcher(lib, exp.value).value.args,
                      lib.parseFloat(act.value).value).Pass?
  {
  }

  /** A number expectation in text that is not a number expression is an error. */
  lemma NumberNeedsExpression(lib: Library, parser: Parser, path: string, exp: Node, act: Node)
    requires parser.Valid() && exp.typ == String && act.typ == Number && lib.parseFloat(act.value).Some?
    requires !StartsWith(exp.value, NumberOpen)
    ensures Walk(lib, parser, path, exp, act).err == Some(NumberFormat(exp.value))
  {
    NotNumericIsError(lib, exp.value);
  }

  /** What one expected field of an object demands of the actual object. */
  ghost predicate FieldOk(lib: Library, parser: Parser, path: string, expObj: map<string, Node>, actObj: map<string, Node>,
                          k: string)
    requires parser.Valid() && k in expObj
  {
    if k !in actObj then IsBeEmpty(expObj[k])
    else Passed(Walk(lib, parser, path + "." + k, expObj[k], actObj[k]))
  }

  /** The loop over the fields passes exactly when every field it visits is satisfied. */
  lemma {:induction false} FieldsLoopPasses(lib: Library, parser: Parser, path: string, bound: nat, keys: seq<string>,
                                            expObj: map<string, Node>, actObj: map<string, Node>)
    requires parser.Valid()
    requires forall i :: 0 <= i < |keys| ==> keys[i] in expObj && |expObj[keys[i]].value| < bound
    ensures Passed(FieldsLoop(lib, parser, path, bound, keys, expObj, actObj)) <==>
      forall i :: 0 <= i < |keys| ==> FieldOk(lib, parser, path, expObj, actObj, keys[i])
    decreases |keys|
  {
    if keys != [] {
      FieldsLoopPasses(lib, parser, path, bound, keys[1..], expObj, actObj);
      assert forall i :: 1 <= i < |keys| ==> keys[i] == keys[1..][i - 1];
    }
  }

  /**
   * Objects: an expected object is a subset specification. The walk passes
   * exactly when every expected field is either present and passes, or absent
   * and expects `{{BeEmpty()}}`, whatever order the fields are visited in.
   */
  lemma ObjectMatch(lib: Library, parser: Parser, path: string, exp: Node, act: Node)
    requires parser.Valid() && act.typ == Object
    requires parser.validateObject(act.value) && parser.validateObject(exp.value)
    ensures Passed(Walk(lib, parser, path, exp, act)) <==>
      forall k :: k in parser.getFields(exp.value) ==>
        FieldOk(lib, parser, path, parser.getFields(exp.value), parser.getFields(act.value), k)
  {
    var expObj, actObj := parser.getFields(exp.value), parser.getFields(act.value);
    var keys := Enumerate(expObj.Keys);
    FieldsLoopPasses(lib, parser, path, |exp.value|, keys, expObj, actObj);
    forall k | k in expObj ensures k in keys {
      assert k in expObj.Keys;
    }
  }

  /** Fields the expectation does not name play no part: actual objects that agree on the named fields fare alike. */
  lemma ExtraFieldsIgnored(lib: Library, parser: Parser, path: string, exp: Node, act1: Node, act2: Node)
    requires parser.Valid() && act1.typ == Object && act2.typ == Object
    requires parser.validateObject(act1.value) && parser.validateObject(act2.value) && parser.validateObject(exp.value)
    requires forall k :: k in parser.getFields(exp.value) ==>
      (k in parser.getFields(act1.value) <==> k in parser.getFields(act2.value))
      && (k in parser.getFields(act1.value) ==> parser.getFields(act1.value)[k] == parser.getFields(act2.value)[k])
    ensures Passed(Walk(lib, parser, path, exp, act1)) <==> Passed(Walk(lib, parser, path, exp, act2))
  {
    ObjectMatch(lib, parser, path, exp, act1);
    ObjectMatch(lib, parser, path, exp, act2);
    var expObj := parser.getFields(exp.value);
    forall k | k in expObj
      ensures FieldOk(lib, parser, path, expObj, parser.getFields(act1.value), k)
          <==> FieldOk(lib, parser, path, expObj, parser.getFields(act2.value), k)
    {
    }
  }

  /** An expected field the actual object lacks fails the walk, unless it expects `{{BeEmpty()}}`. */
  lemma MissingFieldFails(lib: Library, parser: Parser, path: string, exp: Node, act: Node, k: string)
    requires parser.Valid() && act.typ == Object
    requires parser.validateObject(act.value) && parser.validateObject(exp.value)
    requires k in parser.getFields(exp.value) && k !in parser.getFields(act.value)
    requires !IsBeEmpty(parser.getFields(exp.value)[k])
    ensures !Passed(Walk(lib, parser, path, exp, act))
  {
    ObjectMatch(lib, parser, path, exp, act);
    assert !FieldOk(lib, parser, path, parser.getFields(exp.value), parser.getFields(act.value), k);
  }

  /** An actual object or an expected object the parser rejects is an error. */
  lemma InvalidObjectIsError(lib: Library, parser: Parser, path: string, exp: Node, act: Node)
    requires parser.Valid() && act.typ == Object
    ensures !parser.validateObject(act.value) ==> Walk(lib, parser, path, exp, act).err == Some(InvalidObject(act.value))
    ensures parser.validateObject(act.value) && !parser.validateObject(exp.value) ==>
      Walk(lib, parser, path, exp, act).err == Some(InvalidObject(exp.value))
  {
  }

  /**
   * Arrays of base values: equal as multisets of nodes, so order does not
   * matter and duplicates count; a non-base actual element is an error.
   */
  lemma BaseArrays(lib: Library, parser: Parser, path: string, exps: seq<Node>, acts: seq<Node>)
    requires parser.Valid() && IsBaseTypes(exps)
    ensures Passed(MatchArrayWithArray(lib, parser, path, exps, acts)) <==>
      IsBaseTypes(acts) && multiset(exps) == multiset(acts)
    ensures !IsBaseTypes(acts) ==> MatchArrayWithArray(lib, parser, path, exps, acts).err == Some(ArrayNotBase)
    ensures IsBaseTypes(acts) ==> MatchArrayWithArray(lib, parser, path, exps, acts).err.None?
  {
  }

  /** An empty expected array takes the base path, so it matches only an empty actual array. */
  lemma EmptyExpectedArray(lib: Library, parser: Parser, path: string, acts: seq<Node>)
    requires parser.Valid()
    ensures Passed(MatchArrayWithArray(lib, parser, path, [], acts)) <==> acts == []
  {
    if acts != [] {
      assert acts[0] in multiset(acts);
    }
  }

  /** An expected array with both base values and objects, or with inner arrays, is an error. */
  lemma MixedArrayIsError(lib: Library, parser: Parser, path: string, exps: seq<Node>, acts: seq<Node>)
    requires parser.Valid() && !IsBaseTypes(exps) && !IsObjects(exps)
    ensures MatchArrayWithArray(lib, parser, path, exps, acts).err == Some(ArrayMixed)
  {
  }

  /**
   * Schema violations of an object array are errors, never plain mismatches:
   * a bad strategy, a bad `_gst_index`, a bad `_gst_id` or a differing key part,
   * and an actual element lacking the id field.
   */
  lemma SchemaErrors(lib: Library, parser: Parser, path: string, exps: seq<Node>, acts: seq<Node>)
    requires parser.Valid() && IsObjects(exps) && exps != []
    ensures Strategy(parser, exps).Failure? ==>
      MatchArrayWithArray(lib, parser, path, exps, acts).err == Some(Strategy(parser, exps).error)
    ensures Strategy(parser, exps) == Success(true) && ExpectedIndexMap(parser, exps).Failure? ==>
      MatchArrayWithArray(lib, parser, path, exps, acts).err == Some(ExpectedIndexMap(parser, exps).error)
    ensures Strategy(parser, exps) == Success(false) && ExpectedIdMap(parser, exps).Failure? ==>
      MatchArrayWithArray(lib, parser, path, exps, acts).err == Some(ExpectedIdMap(parser, exps).error)
    ensures (Strategy(parser, exps) == Success(false) && ExpectedIdMap(parser, exps).Success?
      && exists j :: 0 <= j < |acts| && ExpectedIdMap(parser, exps).value.0 !in parser.getFields(acts[j].value)) ==>
      MatchArrayWithArray(lib, parser, path, exps, acts).err == Some(ActualMissingKey(ExpectedIdMap(parser, exps).value.0))
  {
    BaseAndObjectsOnlyEmpty(exps);
    if Strategy(parser, exps) == Success(false) && ExpectedIdMap(parser, exps).Success? {
      ActualIdMapSpec(parser, acts, ExpectedIdMap(parser, exps).value.0);
    }
  }

  /** Whether the actual element at a named position passes against its expected element. */
  ghost predicate PositionPasses(lib: Library, parser: Parser, path: string, expMap: map<int, Node>, acts: seq<Node>, j: nat)
    requires parser.Valid() && j < |acts|
  {
    j in expMap ==> Passed(Walk(lib, parser, path + "[" + Itoa(j) + "]", expMap[j], acts[j]))
  }

  /** One step of the by-index loop. */
  lemma IndexLoopStep(lib: Library, parser: Parser, path: string, bound: nat, expMap: map<int, Node>,
                      acts: seq<Node>, i: nat)
    requires parser.Valid() && i < |acts|
    requires forall k :: k in expMap ==> |expMap[k].value| < bound
    ensures Passed(IndexLoop(lib, parser, path, bound, expMap, acts, i)) <==>
      PositionPasses(lib, parser, path, expMap, acts, i) && Passed(IndexLoop(lib, parser, path, bound, expMap, acts, i + 1))
  {
  }

  /** The by-index loop passes exactly when every named position from `i` on passes. */
  lemma {:induction false} IndexLoopPasses(lib: Library, parser: Parser, path: string, bound: nat, expMap: map<int, Node>,
                                           acts: seq<Node>, i: nat)
    requires parser.Valid() && i <= |acts|
    requires forall k :: k in expMap ==> |expMap[k].value| < bound
    ensures Passed(IndexLoop(lib, parser, path, bound, expMap, acts, i)) <==>
      forall j :: i <= j < |acts| ==> PositionPasses(lib, parser, path, expMap, acts, j)
    decreases |acts| - i
  {
    if i < |acts| {
      IndexLoopPasses(lib, parser, path, bound, expMap, acts, i + 1);
      IndexLoopStep(lib, parser, path, bound, expMap, acts, i);
    }
  }

  /**
   * By index: the walk passes exactly when every actual position that some
   * expected element names passes against it; other positions, and named
   * positions beyond the actual array, are not checked.
   */
  lemma ByIndexMatch(lib: Library, parser: Parser, path: string, exps: seq<Node>, acts: seq<Node>)
    requires parser.Valid() && IsObjects(exps) && exps != []
    requires Strategy(parser, exps) == Success(true) && ExpectedIndexMap(parser, exps).Success?
    ensures Passed(MatchArrayWithArray(lib, parser, path, exps, acts)) <==>
      forall j :: 0 <= j < |acts| ==> PositionPasses(lib, parser, path, ExpectedIndexMap(parser, exps).value, acts, j)
  {
    var expMap := ExpectedIndexMap(parser, exps).value;
    BaseAndObjectsOnlyEmpty(exps);
    IndexMapBounded(parser, exps);
    assert MatchArrayWithArray(lib, parser, path, exps, acts) == IndexLoop(lib, parser, path, Bound(exps), expMap, acts, 0);
    IndexLoopPasses(lib, parser, path, Bound(exps), expMap, acts, 0);
  }

  /** By index, an actual element at a position no expected element names may be anything: the walk is the same. */
  lemma UnnamedPositionIgnored(lib: Library, parser: Parser, path: string, exps: seq<Node>, acts: seq<Node>, j: nat, x: Node)
    requires parser.Valid() && IsObjects(exps) && exps != []
    requires Strategy(parser, exps) == Success(true) && ExpectedIndexMap(parser, exps).Success?
    requires j < |acts| && j !in ExpectedIndexMap(parser, exps).value
    ensures MatchArrayWithArray(lib, parser, path, exps, acts) == MatchArrayWithArray(lib, parser, path, exps, acts[j := x])
  {
    var expMap := ExpectedIndexMap(parser, exps).value;
    BaseAndObjectsOnlyEmpty(exps);
    IndexMapBounded(parser, exps);
    assert MatchArrayWithArray(lib, parser, path, exps, acts) == IndexLoop(lib, parser, path, Bound(exps), expMap, acts, 0);
    assert MatchArrayWithArray(lib, parser, path, exps, acts[j := x])
        == IndexLoop(lib, parser, path, Bound(exps), expMap, acts[j := x], 0);
    IndexLoopSkips(lib, parser, path, Bound(exps), expMap, acts, 0, j, x);
  }

  /** The by-index loop never reads a position the map does not name. */
  lemma {:induction false} IndexLoopSkips(lib: Library, parser: Parser, path: string, bound: nat, expMap: map<int, Node>,
                                          acts: seq<Node>, i: nat, j: nat, x: Node)
    requires parser.Valid() && i <= |acts| && j < |acts| && j !in expMap
    requires forall k :: k in expMap ==> |expMap[k].value| < bound
    ensures IndexLoop(lib, parser, path, bound, expMap, acts, i) == IndexLoop(lib, parser, path, bound, expMap, acts[j := x], i)
    decreases |acts| - i
  {
    if i < |acts| {
      assert i in expMap ==> acts[j := x][i] == acts[i];
      IndexLoopSkips(lib, parser, path, bound, expMap, acts, i + 1, j, x);
    }
  }

  /** The by-id loop passes exactly when every id it visits names an actual element that passes. */
  lemma {:induction false} IdLoopPasses(lib: Library, parser: Parser, path: string, bound: nat, metaKey: string,
                                        keys: seq<string>, expMap: map<string, Node>, actMap: map<string, Node>,
                                        exps: seq<Node>, acts: seq<Node>)
    requires parser.Valid()
    requires forall i :: 0 <= i < |keys| ==> keys[i] in expMap
    requires forall k :: k in expMap ==> |expMap[k].value| < bound
    ensures Passed(IdLoop(lib, parser, path, bound, metaKey, keys, expMap, actMap, exps, acts)) <==>
      forall i :: 0 <= i < |keys| ==>
        keys[i] in actMap && Passed(Walk(lib, parser, path + "." + metaKey + "=" + keys[i], expMap[keys[i]], actMap[keys[i]]))
    decreases |keys|
  {
    if keys != [] {
      IdLoopPasses(lib, parser, path, bound, metaKey, keys[1..], expMap, actMap, exps, acts);
      assert forall i :: 1 <= i < |keys| ==> keys[i] == keys[1..][i - 1];
    }
  }

  /**
   * By id: the walk passes exactly when every expected id names an actual
   * element, found by the shared key field, and each such pair passes, whatever
   * order the ids are visited in.
   */
  lemma ByIdMatch(lib: Library, parser: Parser, path: string, exps: seq<Node>, acts: seq<Node>)
    requires parser.Valid() && IsObjects(exps) && exps != []
    requires Strategy(parser, exps) == Success(false) && ExpectedIdMap(parser, exps).Success?
    requires ActualIdMap(parser, acts, ExpectedIdMap(parser, exps).value.0).Success?
    ensures var metaKey, expMap := ExpectedIdMap(parser, exps).value.0, ExpectedIdMap(parser, exps).value.1;
      var actMap := ActualIdMap(parser, acts, metaKey).value;
      Passed(MatchArrayWithArray(lib, parser, path, exps, acts)) <==>
        forall k :: k in expMap ==> k in actMap && Passed(Walk(lib, parser, path + "." + metaKey + "=" + k, expMap[k], actMap[k]))
  {
    BaseAndObjectsOnlyEmpty(exps);
    IdMapBounded(parser, exps);
    var metaKey, expMap := ExpectedIdMap(parser, exps).value.0, ExpectedIdMap(parser, exps).value.1;
    var actMap := ActualIdMap(parser, acts, metaKey).value;
    var keys := Enumerate(expMap.Keys);
    IdLoopPasses(lib, parser, path, Bound(exps), metaKey, keys, expMap, actMap, exps, acts);
    forall k | k in expMap ensures k in keys {
      assert k in expMap.Keys;
    }
  }

  /** An expected id no actual element carries fails the walk. */
  lemma MissingIdFails(lib: Library, parser: Parser, path: string, exps: seq<Node>, acts: seq<Node>, k: string)
    requires parser.Valid() && IsObjects(exps) && exps != []
    requires Strategy(parser, exps) == Success(false) && ExpectedIdMap(parser, exps).Success?
    requires ActualIdMap(parser, acts, ExpectedIdMap(parser, exps).value.0).Success?
    requires k in ExpectedIdMap(parser, exps).value.1
    requires k !in ActualIdMap(parser, acts, ExpectedIdMap(parser, exps).value.0).value
    ensures !Passed(MatchArrayWithArray(lib, parser, path, exps, acts))
  {
    ByIdMatch(lib, parser, path, exps, acts);
  }
}

/**
 * The tree walker: the expected tree is matched against the actual tree by the
 * actual node's type, objects field by field, arrays as unordered collections of
 * base values or as objects paired by index or by id.
 */
module Walker {
  import opened Wrappers
  import opened Text
  import opened Default
  import opened Errors
  import opened Matchers
  import opened Expressions
  import opened Correlation
  import opened Order

  /** What a walk returns: the matcher to report with, whether it matched, and an error. */
  datatype Outcome = Outcome(matcher: Matcher, matched: bool, err: Option<Error>)

  /** A walk passes when it matched without error; every loop of the walker stops on anything else. */
  predicate Passed(o: Outcome) {
    o.matched && o.err.None?
  }

  const Matched: Outcome := Outcome(SuccessMatcher, true, None)

  /** A failure matcher with the given verdict and error. */
  function Fail(path: string, expected: string, actual: string, matched: bool, err: Option<Error>): (o: Outcome)
    ensures o.matcher.FailureMatcher? && o.matched == matched && o.err == err
  {
    Outcome(NewFailureMatcher(path, expected, actual), matched, err)
  }

  /** The failure for an expected type that does not suit the actual type: both type names are reported. */
  function Mismatch(path: string, exp: Node, act: Node, err: Error): (o: Outcome)
    ensures !o.matched && o.err == Some(err)
  {
    Fail(path, TypeName(exp.typ), TypeName(act.typ), false, Some(err))
  }

  /** A failure for two arrays, reported by their texts. */
  function ArrayFail(path: string, exps: seq<Node>, acts: seq<Node>, err: Option<Error>): (o: Outcome)
    ensures !o.matched && o.err == err
  {
    Fail(path, NodesString(exps), NodesString(acts), false, err)
  }

  /**
   * `Walk`: match `act` against `exp` by the actual node's type. Numbers and
   * times are judged by the library; a Null or missing actual node always
   * matches. Keys of a map are visited in some order Go may take.
   */
  ghost function Walk(lib: Library, parser: Parser, path: string, exp: Node, act: Node): (o: Outcome)
    requires parser.Valid()
    ensures o.err.Some? ==> !o.matched
    ensures o.matcher.SuccessMatcher? ==> Passed(o)
    decreases |exp.value|, 2
  {
    match act.typ
    case String =>
      if exp.typ != String then Mismatch(path, exp, act, StringTypeMismatch(exp.typ))
      else
        (match CreateStringMatcher(lib, exp.value)
         case Failure(e) => Fail(path, exp.value, act.value, false, Some(e))
         case Success(m) =>
           var r := MatchString(lib, m, act.value);
           if !r.0 || r.1.Some? then Fail(path, exp.value, act.value, r.0, r.1) else Matched)
    case Number =>
      (match lib.parseFloat(act.value)
       case None => Fail(path, exp.value, act.value, false, Some(FloatSyntax(act.value)))
       case Some(actVal) =>
         if exp.typ == String then
           (match CreateNumberMatcher(lib, exp.value)
            case Failure(e) => Fail(path, exp.value, act.value, false, Some(e))
            case Success(m) =>
              var r := Judge(lib.numerically(m.comparator, m.args, actVal));
              Fail(path, exp.value, act.value, r.0, r.1))
         else if exp.typ == Number then
           (match lib.parseFloat(exp.value)
            case None => Fail(path, exp.value, act.value, false, Some(FloatSyntax(exp.value)))
            case Some(expVal) =>
              var r := Judge(lib.numerically("~", [expVal, 0.05], actVal));
              if !r.0 || r.1.Some? then Fail(path, exp.value, act.value, r.0, r.1) else Matched)
         else Mismatch(path, exp, act, NumberTypeMismatch(exp.typ)))
    case Boolean =>
      if exp.typ != Boolean then Mismatch(path, exp, act, BooleanTypeMismatch(exp.typ))
      else if ToBool(exp.value).None? then Fail(path, exp.value, act.value, false, Some(BoolSyntax(exp.value)))
      else if ToBool(act.value).None? then Fail(path, exp.value, act.value, false, Some(BoolSyntax(act.value)))
      else if ToBool(exp.value) != ToBool(act.value) then Fail(path, exp.value, act.value, false, None)
      else Matched
    case Array =>
      if exp.typ == Array then
        var exps := parser.getArray(exp.value);
        BoundBelow(exps, |exp.value|);
        MatchArrayWithArray(lib, parser, path, exps, parser.getArray(act.value))
      else if exp.typ == String then MatchArrayWithString(path, exp, parser.getArray(act.value))
      else Mismatch(path, exp, act, ArrayTypeMismatch(exp.typ))
    case Object =>
      if !parser.validateObject(act.value) then Fail(path, exp.value, act.value, false, Some(InvalidObject(act.value)))
      else if !parser.validateObject(exp.value) then Fail(path, exp.value, act.value, false, Some(InvalidObject(exp.value)))
      else
        var expObj := parser.getFields(exp.value);
        FieldsLoop(lib, parser, path, |exp.value|, Enumerate(expObj.Keys), expObj, parser.getFields(act.value))
    case Null => Matched
    case NotExist => Matched
  }

  /**
   * The loop over the expected fields, in the order `keys`: a field the actual
   * object lacks is skipped when it expects `{{BeEmpty()}}` and fails otherwise;
   * a field both have is walked, and the first that does not pass is the outcome.
   */
  ghost function FieldsLoop(lib: Library, parser: Parser, path: string, bound: nat, keys: seq<string>,
                            expObj: map<string, Node>, actObj: map<string, Node>): (o: Outcome)
    requires parser.Valid()
    requires forall i :: 0 <= i < |keys| ==> keys[i] in expObj && |expObj[keys[i]].value| < bound
    ensures o.err.Some? ==> !o.matched
    ensures o.matcher.SuccessMatcher? ==> Passed(o)
    decreases bound, 0, |keys|
  {
    if keys == [] then Matched
    else
      var k := keys[0];
      var v := expObj[k];
      if k !in actObj then
        if IsBeEmpty(v) then FieldsLoop(lib, parser, path, bound, keys[1..], expObj, actObj)
        else Fail(path + "." + k, v.value, NoNode.value, false, None)
      else
        var o := Walk(lib, parser, path + "." + k, v, actObj[k]);
        if !Passed(o) then o else FieldsLoop(lib, parser, path, bound, keys[1..], expObj, actObj)
  }

  /**
   * `MatchArrayWithArray`: arrays of base values are equal as multisets; arrays
   * of objects are paired by index or by id; a mixture is an error.
   */
  ghost function MatchArrayWithArray(lib: Library, parser: Parser, path: string, exps: seq<Node>, acts: seq<Node>)
    : (o: Outcome)
    requires parser.Valid()
    ensures o.err.Some? ==> !o.matched
    ensures o.matcher.SuccessMatcher? ==> Passed(o)
    decreases Bound(exps), 1
  {
    if IsBaseTypes(exps) then
      if !IsBaseTypes(acts) then ArrayFail(path, exps, acts, Some(ArrayNotBase))
      else if multiset(exps) != multiset(acts) then ArrayFail(path, exps, acts, None)
      else Matched
    else if IsObjects(exps) then
      match Strategy(parser, exps)
      case Failure(e) => ArrayFail(path, exps, acts, Some(e))
      case Success(byIndex) =>
        if byIndex then
          match ExpectedIndexMap(parser, exps)
          case Failure(e) => ArrayFail(path, exps, acts, Some(e))
          case Success(expMap) =>
            IndexMapBounded(parser, exps);
            IndexLoop(lib, parser, path, Bound(exps), expMap, acts, 0)
        else
          match ExpectedIdMap(parser, exps)
          case Failure(e) => ArrayFail(path, exps, acts, Some(e))
          case Success((metaKey, expMap)) =>
            match ActualIdMap(parser, acts, metaKey)
            case Failure(e) => ArrayFail(path, exps, acts, Some(e))
            case Success(actMap) =>
              IdMapBounded(parser, exps);
              IdLoop(lib, parser, path, Bound(exps), metaKey, Enumerate(expMap.Keys), expMap, actMap, exps, acts)
    else ArrayFail(path, exps, acts, Some(ArrayMixed))
  }

  /**
   * The loop over the actual elements in order: an element whose position the
   * index map names is walked against that entry; the others are not checked.
   */
  ghost function IndexLoop(lib: Library, parser: Parser, path: string, bound: nat, expMap: map<int, Node>,
                           acts: seq<Node>, i: nat): (o: Outcome)
    requires parser.Valid() && i <= |acts|
    requires forall k :: k in expMap ==> |expMap[k].value| < bound
    ensures o.err.Some? ==> !o.matched
    ensures o.matcher.SuccessMatcher? ==> Passed(o)
    decreases bound, 0, |acts| - i
  {
    if i == |acts| then Matched
    else if i in expMap then
      var o := Walk(lib, parser, path + "[" + Itoa(i) + "]", expMap[i], acts[i]);
      if !Passed(o) then o else IndexLoop(lib, parser, path, bound, expMap, acts, i + 1)
    else IndexLoop(lib, parser, path, bound, expMap, acts, i + 1)
  }

  /**
   * The loop over the expected ids, in the order `keys`: each must be the id of
   * an actual element, and is walked against it.
   */
  ghost function IdLoop(lib: Library, parser: Parser, path: string, bound: nat, metaKey: string, keys: seq<string>,
                        expMap: map<string, Node>, actMap: map<string, Node>, exps: seq<Node>, acts: seq<Node>)
    : (o: Outcome)
    requires parser.Valid()
    requires forall i :: 0 <= i < |keys| ==> keys[i] in expMap
    requires forall k :: k in expMap ==> |expMap[k].value| < bound
    ensures o.err.Some? ==> !o.matched
    ensures o.matcher.SuccessMatcher? ==> Passed(o)
    decreases bound, 0, |keys|
  {
    if keys == [] then Matched
    else
      var k := keys[0];
      var at := path + "." + metaKey + "=" + k;
      if k !in actMap then ArrayFail(at, exps, acts, None)
      else
        var o := Walk(lib, parser, at, expMap[k], actMap[k]);
        if !Passed(o) then o
        else IdLoop(lib, parser, path, bound, metaKey, keys[1..], expMap, actMap, exps, acts)
  }

  /**
   * `MatchArrayWithString`: against an array, a String expectation may only be
   * `{{BeEmpty()}}` or `{{Not(BeEmpty())}}`.
   */
  function MatchArrayWithString(path: string, exp: Node, acts: seq<Node>): (o: Outcome)
    ensures Passed(o) <==>
      (exp == Node(String, EmptyPattern) && acts == []) || (exp == Node(String, NotEmptyPattern) && acts != [])
    ensures o.err.None? <==> exp in {Node(String, EmptyPattern), Node(String, NotEmptyPattern)}
    ensures o.err.Some? ==> !o.matched
    ensures o.matcher.SuccessMatcher? ==> Passed(o)
    ensures o.err == Some(ArrayExpectedType(exp.typ)) <==> exp.typ != String
  {
    if exp.typ != String then
      Fail(path, NodeString(exp), NodesString(acts), false, Some(ArrayExpectedType(exp.typ)))
    else if exp.value == EmptyPattern then
      if |acts| > 0 then Fail(path, NodeString(exp), NodesString(acts), false, None) else Matched
    else if exp.value == NotEmptyPattern then
      if |acts| <= 0 then Fail(path, NodeString(exp), NodesString(acts), false, None) else Matched
    else Fail(path, NodeString(exp), NodesString(acts), false, Some(ArrayFunction))
  }
}

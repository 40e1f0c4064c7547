/**
 * How the elements of an expected array of objects are paired with the actual
 * elements: by the position each names in `_gst_index`, or by the `key=value`
 * each names in `_gst_id`.
 */
module Correlation {
  import opened Wrappers
  import opened Text
  import opened Default
  import opened Errors

  predicate HasIndex(parser: Parser, n: Node) {
    KeyIndex in parser.getFields(n.value)
  }

  predicate HasId(parser: Parser, n: Node) {
    KeyID in parser.getFields(n.value)
  }

  /** Every element names itself one way or the other. */
  predicate AllKeyed(parser: Parser, nodes: seq<Node>) {
    forall i :: 0 <= i < |nodes| ==> HasIndex(parser, nodes[i]) || HasId(parser, nodes[i])
  }

  predicate SomeIndex(parser: Parser, nodes: seq<Node>) {
    exists i :: 0 <= i < |nodes| && HasIndex(parser, nodes[i])
  }

  predicate SomeId(parser: Parser, nodes: seq<Node>) {
    exists i :: 0 <= i < |nodes| && HasId(parser, nodes[i])
  }

  /**
   * The loop state of `isArrayExpectedByIndex` after the elements already seen:
   * whether one named an index, whether one named an id. An element naming an
   * index after an id, or an id after (or together with) an index, mixes the two;
   * an element naming neither is missing its key.
   */
  function StrategyFrom(parser: Parser, nodes: seq<Node>, byIndex: bool, byId: bool): (r: Result<bool, Error>)
    requires !(byIndex && byId)
    ensures r.Failure? ==> r.error == MixedStrategy || r.error == MissingStrategy
  {
    if nodes == [] then Success(byIndex)
    else
      var ok1 := HasIndex(parser, nodes[0]);
      var ok2 := HasId(parser, nodes[0]);
      if ok1 && byId then Failure(MixedStrategy)
      else if ok2 && (byIndex || ok1) then Failure(MixedStrategy)
      else if !ok1 && !ok2 then Failure(MissingStrategy)
      else StrategyFrom(parser, nodes[1..], byIndex || ok1, byId || ok2)
  }

  lemma SomeIndexCons(parser: Parser, nodes: seq<Node>)
    requires nodes != []
    ensures SomeIndex(parser, nodes) <==> HasIndex(parser, nodes[0]) || SomeIndex(parser, nodes[1..])
  {
    if SomeIndex(parser, nodes[1..]) {
      var i :| 0 <= i < |nodes[1..]| && HasIndex(parser, nodes[1..][i]);
      assert nodes[i + 1] == nodes[1..][i];
    }
    if SomeIndex(parser, nodes) && !HasIndex(parser, nodes[0]) {
      var i :| 0 <= i < |nodes| && HasIndex(parser, nodes[i]);
      assert nodes[1..][i - 1] == nodes[i];
    }
  }

  lemma SomeIdCons(parser: Parser, nodes: seq<Node>)
    requires nodes != []
    ensures SomeId(parser, nodes) <==> HasId(parser, nodes[0]) || SomeId(parser, nodes[1..])
  {
    if SomeId(parser, nodes[1..]) {
      var i :| 0 <= i < |nodes[1..]| && HasId(parser, nodes[1..][i]);
      assert nodes[i + 1] == nodes[1..][i];
    }
    if SomeId(parser, nodes) && !HasId(parser, nodes[0]) {
      var i :| 0 <= i < |nodes| && HasId(parser, nodes[i]);
      assert nodes[1..][i - 1] == nodes[i];
    }
  }

  lemma AllKeyedCons(parser: Parser, nodes: seq<Node>)
    requires nodes != []
    ensures AllKeyed(parser, nodes) <==>
      (HasIndex(parser, nodes[0]) || HasId(parser, nodes[0])) && AllKeyed(parser, nodes[1..])
  {
    forall i | 0 <= i < |nodes[1..]| ensures nodes[1..][i] == nodes[i + 1] { }
    if AllKeyed(parser, nodes[1..]) && (HasIndex(parser, nodes[0]) || HasId(parser, nodes[0])) {
      forall i | 0 <= i < |nodes| ensures HasIndex(parser, nodes[i]) || HasId(parser, nodes[i]) {
        if i > 0 { assert nodes[i] == nodes[1..][i - 1]; }
      }
    }
  }

  /**
   * What the loop decides from a state: it succeeds exactly when every element
   * is keyed and indices and ids do not both appear, counting the flags; it
   * answers whether indices appear; a failure is a mix once all are keyed and
   * a missing key when no mix arises.
   */
  lemma {:induction false} StrategyFromSpec(parser: Parser, nodes: seq<Node>, byIndex: bool, byId: bool)
    requires !(byIndex && byId)
    ensures var r := StrategyFrom(parser, nodes, byIndex, byId);
      && (r.Success? <==>
        AllKeyed(parser, nodes) && !((byIndex || SomeIndex(parser, nodes)) && (byId || SomeId(parser, nodes))))
      && (r.Success? ==> (r.value <==> byIndex || SomeIndex(parser, nodes)))
      && (r.Failure? && AllKeyed(parser, nodes) ==> r.error == MixedStrategy)
      && (r.Failure? && !((byIndex || SomeIndex(parser, nodes)) && (byId || SomeId(parser, nodes))) ==>
        r.error == MissingStrategy)
  {
    if nodes != [] {
      var ok1 := HasIndex(parser, nodes[0]);
      var ok2 := HasId(parser, nodes[0]);
      SomeIndexCons(parser, nodes);
      SomeIdCons(parser, nodes);
      AllKeyedCons(parser, nodes);
      if !(ok1 && byId) && !(ok2 && (byIndex || ok1)) && (ok1 || ok2) {
        StrategyFromSpec(parser, nodes[1..], byIndex || ok1, byId || ok2);
      }
    }
  }

  /**
   * `isArrayExpectedByIndex`: true when the elements name indices, false when
   * they name ids; an error when one names neither or both kinds appear.
   */
  function Strategy(parser: Parser, nodes: seq<Node>): (r: Result<bool, Error>)
    ensures r.Success? <==> AllKeyed(parser, nodes) && !(SomeIndex(parser, nodes) && SomeId(parser, nodes))
    ensures r.Success? ==> (r.value <==> SomeIndex(parser, nodes))
    ensures r.Failure? && AllKeyed(parser, nodes) ==> r.error == MixedStrategy
    ensures r.Failure? && !(SomeIndex(parser, nodes) && SomeId(parser, nodes)) ==> r.error == MissingStrategy
  {
    StrategyFromSpec(parser, nodes, false, false);
    StrategyFrom(parser, nodes, false, false)
  }

  /** The loop of `isArrayExpectedByIndex`, with its two flags. */
  method IsArrayExpectedByIndex(nodes: seq<Node>, parser: Parser) returns (r: Result<bool, Error>)
    ensures r == Strategy(parser, nodes)
  {
    var isByIndex, isById := false, false;
    var i := 0;
    while i < |nodes|
      invariant 0 <= i <= |nodes| && !(isByIndex && isById)
      invariant StrategyFrom(parser, nodes[i..], isByIndex, isById) == Strategy(parser, nodes)
    {
      assert nodes[i..][1..] == nodes[i + 1..];
      var m := parser.getFields(nodes[i].value);
      var ok1 := KeyIndex in m;
      if ok1 {
        if isById {
          return Failure(MixedStrategy);
        }
        isByIndex := true;
      }
      var ok2 := KeyID in m;
      if ok2 {
        if isByIndex {
          return Failure(MixedStrategy);
        }
        isById := true;
      }
      if !ok1 && !ok2 {
        return Failure(MissingStrategy);
      }
      i := i + 1;
    }
    return Success(isByIndex);
  }

  /** A node with `key` deleted from its text, so the key does not take part in matching. */
  function Strip(parser: Parser, n: Node, key: string): (r: Node)
    ensures parser.Valid() ==> |r.value| <= |n.value|
    ensures parser.Valid() ==> parser.getFields(r.value) == parser.getFields(n.value) - {key}
  {
    Node(n.typ, parser.delete(n.value, key))
  }

  /**
   * The map a loop builds from the elements in order, each stored under its
   * key, a later element replacing an earlier one with the same key; the first
   * element whose key cannot be had is the error.
   */
  function KeyedMap<K(==)>(nodes: seq<Node>, keyOf: Node -> Result<K, Error>, valueOf: Node -> Node)
    : Result<map<K, Node>, Error>
  {
    if nodes == [] then Success(map[])
    else
      match KeyedMap(nodes[..|nodes| - 1], keyOf, valueOf)
      case Failure(e) => Failure(e)
      case Success(m) =>
        match keyOf(nodes[|nodes| - 1])
        case Failure(e) => Failure(e)
        case Success(k) => Success(m[k := valueOf(nodes[|nodes| - 1])])
  }

  /** The position of the first element whose key cannot be had, or the length when there is none. */
  function FirstKeyless<K>(nodes: seq<Node>, keyOf: Node -> Result<K, Error>): (j: nat)
    ensures j <= |nodes| && forall i :: 0 <= i < j ==> keyOf(nodes[i]).Success?
    ensures j < |nodes| ==> keyOf(nodes[j]).Failure?
  {
    if nodes == [] then 0
    else if keyOf(nodes[0]).Failure? then 0
    else 1 + FirstKeyless(nodes[1..], keyOf)
  }

  /** The map is built exactly when every element has a key, and otherwise fails with the first missing one. */
  lemma {:induction false} KeyedMapFails<K>(nodes: seq<Node>, keyOf: Node -> Result<K, Error>, valueOf: Node -> Node)
    ensures KeyedMap(nodes, keyOf, valueOf).Success? <==> FirstKeyless(nodes, keyOf) == |nodes|
    ensures KeyedMap(nodes, keyOf, valueOf).Failure? ==>
      KeyedMap(nodes, keyOf, valueOf).error == keyOf(nodes[FirstKeyless(nodes, keyOf)]).error
  {
    if nodes != [] {
      var init := nodes[..|nodes| - 1];
      KeyedMapFails(init, keyOf, valueOf);
      var f, g := FirstKeyless(nodes, keyOf), FirstKeyless(init, keyOf);
      assert forall i :: 0 <= i < |init| ==> init[i] == nodes[i];
      assert f < |init| ==> g == f;
      assert f >= |init| ==> g == |init|;
    }
  }

  /** `v` is the value of the last element whose key is `k`. */
  ghost predicate LastWith<K>(nodes: seq<Node>, keyOf: Node -> Result<K, Error>, valueOf: Node -> Node, k: K, v: Node) {
    exists j :: 0 <= j < |nodes| && keyOf(nodes[j]) == Success(k) && v == valueOf(nodes[j])
      && forall i :: j < i < |nodes| ==> keyOf(nodes[i]) != Success(k)
  }

  /** The last element is the last with its own key. */
  lemma LastWithAtEnd<K>(nodes: seq<Node>, keyOf: Node -> Result<K, Error>, valueOf: Node -> Node, k: K)
    requires nodes != [] && keyOf(nodes[|nodes| - 1]) == Success(k)
    ensures LastWith(nodes, keyOf, valueOf, k, valueOf(nodes[|nodes| - 1]))
  {
  }

  /** An element with another key after the last one with `k` leaves it the last. */
  lemma LastWithExtend<K>(nodes: seq<Node>, keyOf: Node -> Result<K, Error>, valueOf: Node -> Node, k: K, v: Node)
    requires nodes != [] && LastWith(nodes[..|nodes| - 1], keyOf, valueOf, k, v)
    requires keyOf(nodes[|nodes| - 1]) != Success(k)
    ensures LastWith(nodes, keyOf, valueOf, k, v)
  {
    var n := |nodes| - 1;
    var j :| 0 <= j < n && keyOf(nodes[..n][j]) == Success(k) && v == valueOf(nodes[..n][j])
      && forall i :: j < i < n ==> keyOf(nodes[..n][i]) != Success(k);
    assert nodes[..n][j] == nodes[j];
    forall i | j < i < |nodes| ensures keyOf(nodes[i]) != Success(k) {
      if i < n {
        assert nodes[..n][i] == nodes[i];
      }
    }
  }

  /** A built map files every element under its key, and each entry is the last element with that key. */
  lemma {:induction false} KeyedMapEntries<K>(nodes: seq<Node>, keyOf: Node -> Result<K, Error>, valueOf: Node -> Node)
    requires KeyedMap(nodes, keyOf, valueOf).Success?
    ensures forall j :: 0 <= j < |nodes| ==> keyOf(nodes[j]).Success? && keyOf(nodes[j]).value in KeyedMap(nodes, keyOf, valueOf).value
    ensures forall k :: k in KeyedMap(nodes, keyOf, valueOf).value ==>
      LastWith(nodes, keyOf, valueOf, k, KeyedMap(nodes, keyOf, valueOf).value[k])
  {
    if nodes != [] {
      var n := |nodes| - 1;
      var init := nodes[..n];
      KeyedMapEntries(init, keyOf, valueOf);
      var m := KeyedMap(init, keyOf, valueOf).value;
      var k := keyOf(nodes[n]).value;
      var m' := KeyedMap(nodes, keyOf, valueOf).value;
      assert m' == m[k := valueOf(nodes[n])];
      forall j | 0 <= j < |nodes| ensures keyOf(nodes[j]).Success? && keyOf(nodes[j]).value in m' {
        if j < n {
          assert init[j] == nodes[j];
        }
      }
      forall k' | k' in m' ensures LastWith(nodes, keyOf, valueOf, k', m'[k']) {
        if k' == k {
          LastWithAtEnd(nodes, keyOf, valueOf, k');
        } else {
          LastWithExtend(nodes, keyOf, valueOf, k', m[k']);
        }
      }
    }
  }

  /** When the prefix before `i` maps cleanly and element `i` has no key, the whole map fails with its error. */
  lemma {:induction false} FirstFailure<K>(nodes: seq<Node>, keyOf: Node -> Result<K, Error>, valueOf: Node -> Node, i: nat)
    requires i < |nodes| && KeyedMap(nodes[..i], keyOf, valueOf).Success? && keyOf(nodes[i]).Failure?
    ensures KeyedMap(nodes, keyOf, valueOf) == Failure(keyOf(nodes[i]).error)
    decreases |nodes|
  {
    var n := |nodes| - 1;
    if i == n {
      assert nodes[..n] == nodes[..i];
    } else {
      assert nodes[..n][..i] == nodes[..i];
      FirstFailure(nodes[..n], keyOf, valueOf, i);
    }
  }

  /**
   * The index an element names: its `_gst_index` field must exist, be a Number
   * and read as an integer.
   */
  function IndexOf(parser: Parser, n: Node): (r: Result<int, Error>)
    ensures r.Success? <==> (KeyIndex in parser.getFields(n.value)
      && parser.getFields(n.value)[KeyIndex].typ == Number && Atoi(parser.getFields(n.value)[KeyIndex].value).Some?)
  {
    var m := parser.getFields(n.value);
    if KeyIndex !in m then Failure(MissingIndexKey)
    else if m[KeyIndex].typ != Number then Failure(IndexNotNumber(m[KeyIndex].typ))
    else match Atoi(m[KeyIndex].value)
      case None => Failure(IndexNotInteger(m[KeyIndex].value))
      case Some(i) => Success(i)
  }

  function IndexKey(parser: Parser): Node -> Result<int, Error> {
    n => IndexOf(parser, n)
  }

  function StripKey(parser: Parser, key: string): Node -> Node {
    n => Strip(parser, n, key)
  }

  /** `createExpectedIndexMapper`: each element, less its `_gst_index` field, under the index it names. */
  function ExpectedIndexMap(parser: Parser, nodes: seq<Node>): Result<map<int, Node>, Error> {
    KeyedMap(nodes, IndexKey(parser), StripKey(parser, KeyIndex))
  }

  /**
   * The index map is built exactly when every element names an index; then
   * every named index is a key, and each entry is the last element naming it,
   * less its `_gst_index` field. Otherwise the error is the first element's.
   */
  lemma ExpectedIndexMapSpec(parser: Parser, nodes: seq<Node>)
    ensures ExpectedIndexMap(parser, nodes).Success? <==> forall j :: 0 <= j < |nodes| ==> IndexOf(parser, nodes[j]).Success?
    ensures ExpectedIndexMap(parser, nodes).Failure? ==>
      exists j :: 0 <= j < |nodes| && IndexOf(parser, nodes[j]) == Failure(ExpectedIndexMap(parser, nodes).error)
        && forall i :: 0 <= i < j ==> IndexOf(parser, nodes[i]).Success?
    ensures ExpectedIndexMap(parser, nodes).Success? ==>
      forall j :: 0 <= j < |nodes| ==> IndexOf(parser, nodes[j]).value in ExpectedIndexMap(parser, nodes).value
    ensures ExpectedIndexMap(parser, nodes).Success? ==> forall k :: k in ExpectedIndexMap(parser, nodes).value ==>
      LastWith(nodes, IndexKey(parser), StripKey(parser, KeyIndex), k, ExpectedIndexMap(parser, nodes).value[k])
  {
    var keyOf, valueOf := IndexKey(parser), StripKey(parser, KeyIndex);
    KeyedMapFails(nodes, keyOf, valueOf);
    var f := FirstKeyless(nodes, keyOf);
    if f < |nodes| {
      assert keyOf(nodes[f]).Failure?;
    }
    if ExpectedIndexMap(parser, nodes).Success? {
      KeyedMapEntries(nodes, keyOf, valueOf);
    }
  }

  /** The loop of `createExpectedIndexMapper`. */
  method CreateExpectedIndexMapper(nodes: seq<Node>, parser: Parser) returns (r: Result<map<int, Node>, Error>)
    ensures r == ExpectedIndexMap(parser, nodes)
  {
    var keyOf, valueOf := IndexKey(parser), StripKey(parser, KeyIndex);
    var result: map<int, Node> := map[];
    var i := 0;
    while i < |nodes|
      invariant 0 <= i <= |nodes|
      invariant KeyedMap(nodes[..i], keyOf, valueOf) == Success(result)
    {
      assert nodes[..i + 1][..i] == nodes[..i];
      var node := nodes[i];
      var m := parser.getFields(node.value);
      if KeyIndex in m {
        var name := m[KeyIndex];
        if name.typ != Number {
          FirstFailure(nodes, keyOf, valueOf, i);
          return Failure(IndexNotNumber(name.typ));
        }
        var index := Atoi(name.value);
        if index.None? {
          FirstFailure(nodes, keyOf, valueOf, i);
          return Failure(IndexNotInteger(name.value));
        }
        result := result[index.value := Node(node.typ, parser.delete(node.value, KeyIndex))];
      } else {
        FirstFailure(nodes, keyOf, valueOf, i);
        return Failure(MissingIndexKey);
      }
      i := i + 1;
    }
    assert nodes[..i] == nodes;
    r := Success(result);
  }

  /**
   * The key part and the value part of an element's `_gst_id`: the field must
   * exist, be a String and hold exactly one '='.
   */
  function IdOf(parser: Parser, n: Node): (r: Result<(string, string), Error>)
    ensures r.Success? ==> '=' !in r.value.0 && '=' !in r.value.1
    ensures r.Success? ==> (KeyID in parser.getFields(n.value)
      && parser.getFields(n.value)[KeyID].value == r.value.0 + "=" + r.value.1)
    ensures var m := parser.getFields(n.value);
      r.Success? <==> KeyID in m && m[KeyID].typ == String && CountChar(m[KeyID].value, '=') == 1
    ensures r == Failure(MissingIdKey) <==> KeyID !in parser.getFields(n.value)
    ensures var m := parser.getFields(n.value);
      (KeyID in m && m[KeyID].typ != String <==> r.Failure? && r.error.IdNotString?)
      && (KeyID in m && m[KeyID].typ != String ==> r.error == IdNotString(m[KeyID].typ))
    ensures var m := parser.getFields(n.value);
      ((KeyID in m && m[KeyID].typ == String && CountChar(m[KeyID].value, '=') != 1)
        <==> r.Failure? && r.error.IdFormat?)
      && (r.Failure? && r.error.IdFormat? ==> r.error == IdFormat(m[KeyID].value))
  {
    var m := parser.getFields(n.value);
    if KeyID !in m then Failure(MissingIdKey)
    else if m[KeyID].typ != String then Failure(IdNotString(m[KeyID].typ))
    else
      var parts := Split(m[KeyID].value, '=');
      if |parts| != 2 then Failure(IdFormat(m[KeyID].value))
      else
        assert Join(parts, "=") == parts[0] + "=" + parts[1];
        Success((parts[0], parts[1]))
  }

  /**
   * `createExpectedIDMapper` as written: the shared key part is remembered in
   * `metaKey`, and the empty string stands for "no key part seen yet", so a
   * first element whose key part is empty lets a later one choose another.
   */
  function ExpectedIdMapAsWritten(parser: Parser, nodes: seq<Node>): Result<(string, map<string, Node>), Error> {
    if nodes == [] then Success(("", map[]))
    else
      var last := nodes[|nodes| - 1];
      match ExpectedIdMapAsWritten(parser, nodes[..|nodes| - 1])
      case Failure(e) => Failure(e)
      case Success((metaKey, m)) =>
        match IdOf(parser, last)
        case Failure(e) => Failure(e)
        case Success((mKey, key)) =>
          if metaKey != "" && mKey != metaKey then Failure(IdKeyMismatch)
          else Success((mKey, m[key := Strip(parser, last, KeyID)]))
  }

  /** The loop of `createExpectedIDMapper`, as written. */
  method CreateExpectedIdMapper(nodes: seq<Node>, parser: Parser) returns (r: Result<(string, map<string, Node>), Error>)
    ensures r == ExpectedIdMapAsWritten(parser, nodes)
  {
    var result: map<string, Node> := map[];
    var metaKey := "";
    var i := 0;
    while i < |nodes|
      invariant 0 <= i <= |nodes|
      invariant ExpectedIdMapAsWritten(parser, nodes[..i]) == Success((metaKey, result))
    {
      assert nodes[..i + 1][..i] == nodes[..i];
      var node := nodes[i];
      var m := parser.getFields(node.value);
      if KeyID in m {
        var name := m[KeyID];
        if name.typ != String {
          AsWrittenFailure(parser, nodes, i);
          return Failure(IdNotString(name.typ));
        }
        var parts := Split(name.value, '=');
        if |parts| != 2 {
          AsWrittenFailure(parser, nodes, i);
          return Failure(IdFormat(name.value));
        }
        var mKey := parts[0];
        if metaKey != "" && mKey != metaKey {
          AsWrittenFailure(parser, nodes, i);
          return Failure(IdKeyMismatch);
        }
        metaKey := mKey;
        var key := parts[1];
        result := result[key := Node(node.typ, parser.delete(node.value, KeyID))];
      } else {
        AsWrittenFailure(parser, nodes, i);
        return Failure(MissingIdKey);
      }
      i := i + 1;
    }
    assert nodes[..i] == nodes;
    r := Success((metaKey, result));
  }

  /** A failure at element `i` of the as-written fold is the failure of the whole fold. */
  lemma {:induction false} AsWrittenFailure(parser: Parser, nodes: seq<Node>, i: nat)
    requires i < |nodes| && ExpectedIdMapAsWritten(parser, nodes[..i + 1]).Failure?
    ensures ExpectedIdMapAsWritten(parser, nodes) == ExpectedIdMapAsWritten(parser, nodes[..i + 1])
    decreases |nodes|
  {
    var n := |nodes| - 1;
    if i == n {
      assert nodes[..i + 1] == nodes;
    } else {
      assert nodes[..n][..i + 1] == nodes[..i + 1];
      AsWrittenFailure(parser, nodes[..n], i);
    }
  }

  /** The key part every element must share: the first element's, or "" for an empty array. */
  function FirstKeyPart(parser: Parser, nodes: seq<Node>): string {
    if nodes != [] && IdOf(parser, nodes[0]).Success? then IdOf(parser, nodes[0]).value.0 else ""
  }

  /** An element's value part, provided its key part is `metaKey`. */
  function IdKey(parser: Parser, metaKey: string): Node -> Result<string, Error> {
    n => match IdOf(parser, n)
      case Failure(e) => Failure(e)
      case Success((mKey, key)) => if mKey != metaKey then Failure(IdKeyMismatch) else Success(key)
  }

  /**
   * `createExpectedIDMapper` as evidently intended: every element's key part
   * must equal the first element's, empty or not. The result is that key part
   * and each element, less its `_gst_id` field, under its value part.
   */
  function ExpectedIdMap(parser: Parser, nodes: seq<Node>): Result<(string, map<string, Node>), Error> {
    var metaKey := FirstKeyPart(parser, nodes);
    match KeyedMap(nodes, IdKey(parser, metaKey), StripKey(parser, KeyID))
    case Failure(e) => Failure(e)
    case Success(m) => Success((metaKey, m))
  }

  /**
   * The id map is built exactly when every element has a well-formed id and all
   * share one key part, which is the one returned; each value part is then a
   * key, and each entry is the last element with that value part.
   */
  lemma ExpectedIdMapSpec(parser: Parser, nodes: seq<Node>)
    ensures ExpectedIdMap(parser, nodes).Success? <==> forall j :: 0 <= j < |nodes| ==>
      IdOf(parser, nodes[j]).Success? && IdOf(parser, nodes[j]).value.0 == FirstKeyPart(parser, nodes)
    ensures ExpectedIdMap(parser, nodes).Success? ==> forall j :: 0 <= j < |nodes| ==>
      IdOf(parser, nodes[j]).value.0 == ExpectedIdMap(parser, nodes).value.0
      && IdOf(parser, nodes[j]).value.1 in ExpectedIdMap(parser, nodes).value.1
    ensures ExpectedIdMap(parser, nodes).Success? ==> forall k :: k in ExpectedIdMap(parser, nodes).value.1 ==>
      LastWith(nodes, IdKey(parser, FirstKeyPart(parser, nodes)), StripKey(parser, KeyID), k, ExpectedIdMap(parser, nodes).value.1[k])
  {
    var keyOf, valueOf := IdKey(parser, FirstKeyPart(parser, nodes)), StripKey(parser, KeyID);
    KeyedMapFails(nodes, keyOf, valueOf);
    var f := FirstKeyless(nodes, keyOf);
    if f < |nodes| {
      assert keyOf(nodes[f]).Failure?;
    }
    if ExpectedIdMap(parser, nodes).Success? {
      KeyedMapEntries(nodes, keyOf, valueOf);
    }
  }

  /** Where no key part is empty, the code as written and the intended definition agree. */
  lemma {:induction false} AsWrittenAgreesWhenKeyed(parser: Parser, nodes: seq<Node>)
    requires forall j :: 0 <= j < |nodes| ==> IdOf(parser, nodes[j]).Success? ==> IdOf(parser, nodes[j]).value.0 != ""
    ensures ExpectedIdMapAsWritten(parser, nodes) == ExpectedIdMap(parser, nodes)
  {
    if nodes != [] {
      var n := |nodes| - 1;
      var init := nodes[..n];
      assert forall j :: 0 <= j < n ==> init[j] == nodes[j];
      AsWrittenAgreesWhenKeyed(parser, init);
      var keyOf, valueOf := IdKey(parser, FirstKeyPart(parser, nodes)), StripKey(parser, KeyID);
      if init == [] {
        assert KeyedMap(init, keyOf, valueOf) == Success(map[]);
      } else {
        assert FirstKeyPart(parser, init) == FirstKeyPart(parser, nodes);
        var prior := ExpectedIdMap(parser, init);
        if prior.Success? {
          KeyedMapFails(init, keyOf, valueOf);
          assert keyOf(init[0]).Success?;
          assert prior.value.0 != "";
        }
      }
    }
  }

  /** The key an actual element is filed under: the raw text of its `key` field. */
  function ActualKeyOf(parser: Parser, key: string, n: Node): (r: Result<string, Error>)
    ensures r.Success? <==> key in parser.getFields(n.value)
    ensures r.Success? ==> r.value == parser.getFields(n.value)[key].value
    ensures r.Failure? ==> r.error == ActualMissingKey(key)
  {
    var m := parser.getFields(n.value);
    if key in m then Success(m[key].value) else Failure(ActualMissingKey(key))
  }

  function ActualKey(parser: Parser, key: string): Node -> Result<string, Error> {
    n => ActualKeyOf(parser, key, n)
  }

  function Identity(): Node -> Node {
    n => n
  }

  /** `createActualIDMapper`: each actual element under the text of its field `key`, which each must have. */
  function ActualIdMap(parser: Parser, nodes: seq<Node>, key: string): Result<map<string, Node>, Error> {
    KeyedMap(nodes, ActualKey(parser, key), Identity())
  }

  /** The loop of `createActualIDMapper`. */
  method CreateActualIdMapper(nodes: seq<Node>, key: string, parser: Parser) returns (r: Result<map<string, Node>, Error>)
    ensures r == ActualIdMap(parser, nodes, key)
  {
    var keyOf, valueOf := ActualKey(parser, key), Identity();
    var result: map<string, Node> := map[];
    var i := 0;
    while i < |nodes|
      invariant 0 <= i <= |nodes|
      invariant KeyedMap(nodes[..i], keyOf, valueOf) == Success(result)
    {
      assert nodes[..i + 1][..i] == nodes[..i];
      var node := nodes[i];
      var m := parser.getFields(node.value);
      if key in m {
        result := result[m[key].value := node];
      } else {
        FirstFailure(nodes, keyOf, valueOf, i);
        return Failure(ActualMissingKey(key));
      }
      i := i + 1;
    }
    assert nodes[..i] == nodes;
    r := Success(result);
  }

  /**
   * The actual map is built exactly when every actual element has the field;
   * then each element's field text is a key, and each entry is the last element
   * with that text.
   */
  lemma ActualIdMapSpec(parser: Parser, nodes: seq<Node>, key: string)
    ensures ActualIdMap(parser, nodes, key).Success? <==> forall j :: 0 <= j < |nodes| ==> key in parser.getFields(nodes[j].value)
    ensures ActualIdMap(parser, nodes, key).Failure? ==> ActualIdMap(parser, nodes, key).error == ActualMissingKey(key)
    ensures ActualIdMap(parser, nodes, key).Success? ==> forall j :: 0 <= j < |nodes| ==>
      parser.getFields(nodes[j].value)[key].value in ActualIdMap(parser, nodes, key).value
    ensures ActualIdMap(parser, nodes, key).Success? ==> forall k :: k in ActualIdMap(parser, nodes, key).value ==>
      LastWith(nodes, ActualKey(parser, key), Identity(), k, ActualIdMap(parser, nodes, key).value[k])
  {
    var keyOf, valueOf := ActualKey(parser, key), Identity();
    KeyedMapFails(nodes, keyOf, valueOf);
    var f := FirstKeyless(nodes, keyOf);
    if f < |nodes| {
      assert keyOf(nodes[f]).Failure?;
    }
    if ActualIdMap(parser, nodes, key).Success? {
      KeyedMapEntries(nodes, keyOf, valueOf);
    }
  }

  /** A parser that knows two texts, "A" with id "=a" and "B" with id "k=b". */
  function TwoIds(): Parser {
    Parser(
      v => true,
      v => if v == "A" then map[KeyID := Node(String, "=a")]
           else if v == "B" then map[KeyID := Node(String, "k=b")]
           else map[],
      v => [],
      (v, k) => v)
  }

  /**
   * The empty key part of a first element counts as "no key part seen": the
   * code as written accepts ids "=a" then "k=b", whose key parts differ, and
   * reports the key part "k"; the intended definition rejects them.
   */
  lemma EmptyKeyPartSlipsThrough()
    ensures ExpectedIdMapAsWritten(TwoIds(), [Node(Object, "A"), Node(Object, "B")]).Success?
    ensures ExpectedIdMapAsWritten(TwoIds(), [Node(Object, "A"), Node(Object, "B")]).value.0 == "k"
    ensures ExpectedIdMap(TwoIds(), [Node(Object, "A"), Node(Object, "B")]) == Failure(IdKeyMismatch)
  {
    var p, a, b := TwoIds(), Node(Object, "A"), Node(Object, "B");
    var nodes := [a, b];
    assert p.getFields("A")[KeyID].value == "=a";
    assert p.getFields("B")[KeyID].value == "k=b";
    assert Split("=a", '=') == ["", "a"];
    assert "k=b"[1..] == "=b" && "=b"[1..] == "b" && "b"[1..] == "";
    assert Split("b", '=') == ["b"];
    assert Split("=b", '=') == ["", "b"];
    assert ['k'] + "" == "k";
    assert Split("k=b", '=') == ["k", "b"];
    assert IdOf(p, a) == Success(("", "a"));
    assert IdOf(p, b) == Success(("k", "b"));
    assert nodes[..1] == [a] && [a][..0] == [];
    assert ExpectedIdMapAsWritten(p, [a]).Success?;
    assert FirstKeyPart(p, nodes) == "";
    var keyOf, valueOf := IdKey(p, ""), StripKey(p, KeyID);
    assert keyOf(a) == Success("a") && keyOf(b) == Failure(IdKeyMismatch);
    assert KeyedMap([a], keyOf, valueOf).Success?;
  }

  /** One more than the length of the longest element text, and 0 for no elements. */
  function Bound(ns: seq<Node>): (b: nat)
    ensures forall i :: 0 <= i < |ns| ==> |ns[i].value| < b
  {
    if ns == [] then 0
    else
      var rest := Bound(ns[1..]);
      assert forall i :: 1 <= i < |ns| ==> ns[i] == ns[1..][i - 1];
      if |ns[0].value| + 1 > rest then |ns[0].value| + 1 else rest
  }

  /** Any number above every element text's length is at least the bound. */
  lemma {:induction false} BoundBelow(ns: seq<Node>, n: nat)
    requires forall i :: 0 <= i < |ns| ==> |ns[i].value| < n
    ensures Bound(ns) <= n
  {
    if ns != [] {
      assert forall i :: 1 <= i < |ns| ==> ns[i] == ns[1..][i - 1];
      BoundBelow(ns[1..], n);
    }
  }

  /** Entries of a built map are the elements, shortened or not; so they stay below the elements' bound. */
  lemma KeyedMapBounded<K>(nodes: seq<Node>, keyOf: Node -> Result<K, Error>, valueOf: Node -> Node)
    requires KeyedMap(nodes, keyOf, valueOf).Success?
    requires forall j :: 0 <= j < |nodes| ==> |valueOf(nodes[j]).value| <= |nodes[j].value|
    ensures forall k :: k in KeyedMap(nodes, keyOf, valueOf).value ==>
      |KeyedMap(nodes, keyOf, valueOf).value[k].value| < Bound(nodes)
  {
    var m := KeyedMap(nodes, keyOf, valueOf).value;
    KeyedMapEntries(nodes, keyOf, valueOf);
    forall k | k in m ensures |m[k].value| < Bound(nodes) {
      assert LastWith(nodes, keyOf, valueOf, k, m[k]);
      var j :| 0 <= j < |nodes| && keyOf(nodes[j]) == Success(k) && m[k] == valueOf(nodes[j])
        && forall i :: j < i < |nodes| ==> keyOf(nodes[i]) != Success(k);
    }
  }

  /** The elements of the index map are below the bound of the expected elements. */
  lemma IndexMapBounded(parser: Parser, nodes: seq<Node>)
    requires parser.Valid() && ExpectedIndexMap(parser, nodes).Success?
    ensures forall k :: k in ExpectedIndexMap(parser, nodes).value ==>
      |ExpectedIndexMap(parser, nodes).value[k].value| < Bound(nodes)
  {
    KeyedMapBounded(nodes, IndexKey(parser), StripKey(parser, KeyIndex));
  }

  /** The elements of the id map are below the bound of the expected elements. */
  lemma IdMapBounded(parser: Parser, nodes: seq<Node>)
    requires parser.Valid() && ExpectedIdMap(parser, nodes).Success?
    ensures forall k :: k in ExpectedIdMap(parser, nodes).value.1 ==>
      |ExpectedIdMap(parser, nodes).value.1[k].value| < Bound(nodes)
  {
    KeyedMapBounded(nodes, IdKey(parser, FirstKeyPart(parser, nodes)), StripKey(parser, KeyID));
  }
}

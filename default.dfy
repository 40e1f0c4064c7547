/**
 * Value types, tree nodes, the abstract parser capability and the small
 * predicates over nodes that the matcher relies on.
 */
module Default {
  import opened Wrappers
  import opened Text

  const KeyID: string := "_gst_id"
  const KeyIndex: string := "_gst_index"

  /** The seven value types, declared in the order of their integer codes. */
  datatype ValueType = NotExist | String | Number | Object | Array | Boolean | Null

  /** The integer code Go assigns each type (its position in the declaration). */
  function Code(t: ValueType): (c: nat)
    ensures c < 7
  {
    match t
    case NotExist => 0
    case String => 1
    case Number => 2
    case Object => 3
    case Array => 4
    case Boolean => 5
    case Null => 6
  }

  /**
   * The name printed for an integer type code. A Go `ValueType` is an `int`, so
   * codes outside the declared seven exist too; they print as "NotExist".
   */
  function CodeName(code: int): (s: string)
    ensures s != [] && ',' !in s
  {
    if code == 1 then "String"
    else if code == 2 then "Number"
    else if code == 3 then "Object"
    else if code == 4 then "Array"
    else if code == 5 then "Boolean"
    else if code == 6 then "Null"
    else "NotExist"
  }

  /** The name of a value type. */
  function TypeName(t: ValueType): string {
    CodeName(Code(t))
  }

  /** Only NotExist and the undeclared codes print as "NotExist". */
  lemma CodeNameDefault(code: int)
    ensures CodeName(code) == "NotExist" <==> !(1 <= code <= 6)
  {
  }

  /** Distinct type codes in the declared range have distinct names. */
  lemma {:induction false} TypeNameInjective(a: ValueType, b: ValueType)
    ensures TypeName(a) == TypeName(b) ==> a == b
  {
    if TypeName(a) == TypeName(b) {
      CodeNameDefault(Code(a));
      CodeNameDefault(Code(b));
      assert Code(a) == Code(b);
    }
  }

  /** A node of the tree: its type and its raw text. */
  datatype Node = Node(typ: ValueType, value: string)

  /** The zero Node, what a lookup of a missing key yields in Go. */
  const NoNode: Node := Node(NotExist, "")

  /** The text of a node: "type = T, value = V". */
  function NodeString(n: Node): (s: string)
    ensures StartsWith(s, "type = " + TypeName(n.typ) + ", value = ")
    ensures |s| == 17 + |TypeName(n.typ)| + |n.value|
    ensures s[|s| - |n.value|..] == n.value
  {
    "type = " + TypeName(n.typ) + ", value = " + n.value
  }

  /** "type = T, value = V" with a comma-free T determines T and V. */
  lemma LabelInjective(t1: string, v1: string, t2: string, v2: string)
    requires ',' !in t1 && ',' !in t2
    requires "type = " + t1 + ", value = " + v1 == "type = " + t2 + ", value = " + v2
    ensures t1 == t2 && v1 == v2
  {
    var s1, s2 := t1 + (", value = " + v1), t2 + (", value = " + v2);
    assert s1 == ("type = " + t1 + ", value = " + v1)[7..];
    assert s2 == ("type = " + t2 + ", value = " + v2)[7..];
    FirstIndexAfter(t1, ", value = " + v1, ',');
    FirstIndexAfter(t2, ", value = " + v2, ',');
    assert t1 == s1[..|t1|] && t2 == s2[..|t2|];
    assert v1 == s1[|t1| + 10..] && v2 == s2[|t2| + 10..];
  }

  /** A node's text determines the node: the type name is the text up to the first comma. */
  lemma NodeStringInjective(a: Node, b: Node)
    requires NodeString(a) == NodeString(b)
    ensures a == b
  {
    LabelInjective(TypeName(a.typ), a.value, TypeName(b.typ), b.value);
    TypeNameInjective(a.typ, b.typ);
  }

  /** The element texts of a sequence of nodes, in order. */
  function NodeStrings(ns: seq<Node>): (r: seq<string>)
    ensures |r| == |ns| && forall i :: 0 <= i < |ns| ==> r[i] == NodeString(ns[i])
  {
    if ns == [] then [] else [NodeString(ns[0])] + NodeStrings(ns[1..])
  }

  /** The text of a sequence of nodes: the element texts joined by "|", in brackets. */
  function NodesString(ns: seq<Node>): (s: string)
    ensures |s| >= 2 && s[0] == '[' && s[|s| - 1] == ']'
    ensures s[1..|s| - 1] == Join(NodeStrings(ns), "|")
  {
    "[" + Join(NodeStrings(ns), "|") + "]"
  }

  lemma NodesStringShapes(n: Node)
    ensures NodesString([]) == "[]"
    ensures NodesString([n]) == "[" + NodeString(n) + "]"
  {
    assert NodeStrings([n]) == [NodeString(n)];
  }

  /**
   * The parser capability as four functions over raw text. Go's interface
   * reports a validation error; here `validateObject` says whether the text is
   * a well-formed object.
   */
  datatype Parser = Parser(
    validateObject: string -> bool,
    getFields: string -> map<string, Node>,
    getArray: string -> seq<Node>,
    delete: (string, string) -> string)
  {
    /**
     * The laws the model needs of any parser: a field or an element is a proper
     * piece of its container's text, deleting a key never lengthens the text, and
     * deleting a key removes exactly that key from the fields.
     */
    ghost predicate Valid() {
      && (forall v, k :: k in getFields(v) ==> |getFields(v)[k].value| < |v|)
      && (forall v, i :: 0 <= i < |getArray(v)| ==> |getArray(v)[i].value| < |v|)
      && (forall v, k :: |delete(v, k)| <= |v|)
      && (forall v, k :: getFields(delete(v, k)) == getFields(v) - {k})
    }
  }

  /** True when every node has type Object; the scan stops at the first that does not. */
  function IsObjects(ns: seq<Node>): (b: bool)
    ensures b <==> forall i :: 0 <= i < |ns| ==> ns[i].typ == Object
  {
    if ns == [] then true
    else if ns[0].typ != Object then false
    else IsObjects(ns[1..])
  }

  /** True for the base types String, Number, Boolean and Null. */
  predicate IsBaseType(n: Node) {
    match n.typ
    case String | Number | Boolean | Null => true
    case _ => false
  }

  /** True when every node has a base type; the scan stops at the first that does not. */
  function IsBaseTypes(ns: seq<Node>): (b: bool)
    ensures b <==> forall i :: 0 <= i < |ns| ==> IsBaseType(ns[i])
  {
    if ns == [] then true
    else if !IsBaseType(ns[0]) then false
    else IsBaseTypes(ns[1..])
  }

  /** An object is not a base type, so only the empty sequence is both all-base and all-object. */
  lemma BaseAndObjectsOnlyEmpty(ns: seq<Node>)
    ensures IsBaseTypes(ns) && IsObjects(ns) <==> ns == []
  {
    if ns != [] {
      assert !(IsBaseType(ns[0]) && ns[0].typ == Object);
    }
  }

  /** The base types are exactly the four the matcher compares as plain values. */
  lemma BaseTypeExactly(n: Node)
    ensures IsBaseType(n) <==> n.typ !in {NotExist, Object, Array}
  {
  }

  /**
   * `toBool`: "true" and "false" in any letter case; anything else is a syntax
   * error (None). Only ASCII letters lower to the letters of "true" and "false",
   * so ASCII lower-casing decides the comparison exactly.
   */
  function ToBool(s: string): (r: Option<bool>)
    ensures r == Some(true) <==> AsciiLower(s) == "true"
    ensures r == Some(false) <==> AsciiLower(s) == "false"
    ensures r.None? <==> AsciiLower(s) != "true" && AsciiLower(s) != "false"
    ensures r.Some? ==> |s| == (if r.value then 4 else 5)
  {
    var lower := AsciiLower(s);
    if lower == "true" then Some(true)
    else if lower == "false" then Some(false)
    else None
  }

  /** `strconv.FormatBool`, the canonical spelling. */
  function FormatBool(b: bool): string {
    if b then "true" else "false"
  }

  lemma ToBoolFormat(b: bool)
    ensures ToBool(FormatBool(b)) == Some(b)
    ensures ToBool(if b then "TRUE" else "False") == Some(b)
  {
  }

  /** Texts that agree up to letter case parse alike. */
  lemma ToBoolIgnoresCase(s: string, t: string)
    requires AsciiLower(s) == AsciiLower(t)
    ensures ToBool(s) == ToBool(t)
  {
  }
}

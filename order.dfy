/**
 * The order in which Go's `range` visits the keys of a map is unspecified; the
 * model lets it be any listing of the key set, each key once.
 */
module Order {
  /** Every position of a sequence holds a different value. */
  predicate Distinct(ord: seq<string>) {
    forall i, j :: 0 <= i < j < |ord| ==> ord[i] != ord[j]
  }

  /** `ord` lists the set `s`, each element once: one order Go's map iteration may take. */
  ghost predicate IsEnumeration(ord: seq<string>, s: set<string>) {
    Distinct(ord) && (forall x :: x in ord <==> x in s)
  }

  /** An enumeration of a set is as long as the set is large. */
  lemma {:induction false} EnumerationSize(ord: seq<string>, s: set<string>)
    requires IsEnumeration(ord, s)
    ensures |ord| == |s|
  {
    if ord != [] {
      var last := ord[|ord| - 1];
      var init := ord[..|ord| - 1];
      assert Distinct(init) by {
        forall i, j | 0 <= i < j < |init| ensures init[i] != init[j] {
          assert init[i] == ord[i] && init[j] == ord[j];
        }
      }
      forall x ensures x in init <==> x in s - {last} {
        if x in init {
          var i :| 0 <= i < |init| && init[i] == x;
          assert ord[i] == x && i < |ord| - 1;
        }
        if x in s - {last} {
          assert x in ord;
          var i :| 0 <= i < |ord| && ord[i] == x;
          assert i != |ord| - 1 && init[i] == x;
        }
      }
      assert last in ord;
      EnumerationSize(init, s - {last});
    }
  }

  /** Some listing of `s`, each element once. */
  ghost function Enumerate(s: set<string>): (ord: seq<string>)
    ensures IsEnumeration(ord, s)
  {
    if s == {} then []
    else
      var x :| x in s;
      var rest := Enumerate(s - {x});
      assert forall i :: 0 <= i < |rest| ==> rest[i] != x;
      [x] + rest
  }
}

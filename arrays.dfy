/**
 * Arrays of base values are compared as unordered collections that count
 * duplicates: `nodesContain` consumes each element of the larger side at most
 * once, and `baseNodesEqual` asks for containment both ways.
 */
module Arrays {
  import opened Default

  /** Every element of `subset` can be paired with its own equal element of `set`. */
  predicate Contains(pool: seq<Node>, subset: seq<Node>) {
    multiset(subset) <= multiset(pool)
  }

  /** The elements whose flag is set. */
  ghost function Picked(xs: seq<Node>, flags: seq<bool>): multiset<Node>
    requires |flags| == |xs|
  {
    if xs == [] then multiset{}
    else
      var last := if flags[|xs| - 1] then multiset{xs[|xs| - 1]} else multiset{};
      Picked(xs[..|xs| - 1], flags[..|xs| - 1]) + last
  }

  /** The elements whose flag is clear. */
  ghost function Unpicked(xs: seq<Node>, flags: seq<bool>): multiset<Node>
    requires |flags| == |xs|
  {
    if xs == [] then multiset{}
    else
      var last := if flags[|xs| - 1] then multiset{} else multiset{xs[|xs| - 1]};
      Unpicked(xs[..|xs| - 1], flags[..|xs| - 1]) + last
  }

  lemma {:induction false} PickedSplit(xs: seq<Node>, flags: seq<bool>)
    requires |flags| == |xs|
    ensures Picked(xs, flags) + Unpicked(xs, flags) == multiset(xs)
  {
    if xs != [] {
      PickedSplit(xs[..|xs| - 1], flags[..|xs| - 1]);
      assert xs == xs[..|xs| - 1] + [xs[|xs| - 1]];
    }
  }

  /** Setting one clear flag picks one more copy of its element. */
  lemma {:induction false} PickOne(xs: seq<Node>, flags: seq<bool>, j: nat)
    requires |flags| == |xs| && j < |xs| && !flags[j]
    ensures Picked(xs, flags[j := true]) == Picked(xs, flags) + multiset{xs[j]}
  {
    var n := |xs| - 1;
    if j < n {
      assert flags[j := true][..n] == flags[..n][j := true];
      PickOne(xs[..n], flags[..n], j);
    } else {
      assert flags[j := true][..n] == flags[..n];
    }
  }

  /** When no clear flag marks a copy of `s`, every copy of `s` is picked. */
  lemma {:induction false} NoneUnpicked(xs: seq<Node>, flags: seq<bool>, s: Node)
    requires |flags| == |xs|
    requires forall j :: 0 <= j < |xs| && !flags[j] ==> xs[j] != s
    ensures Unpicked(xs, flags)[s] == 0
  {
    if xs != [] {
      NoneUnpicked(xs[..|xs| - 1], flags[..|xs| - 1], s);
    }
  }

  /** The first element of `pool` equal to `s` whose flag is clear, or -1 when there is none. */
  method FindUnseen(pool: seq<Node>, seen: array<bool>, s: Node) returns (j: int)
    requires seen.Length == |pool|
    ensures -1 <= j < |pool|
    ensures j == -1 ==> forall i :: 0 <= i < |pool| && !seen[i] ==> pool[i] != s
    ensures j >= 0 ==> pool[j] == s && !seen[j]
  {
    j := 0;
    while j < |pool|
      invariant 0 <= j <= |pool|
      invariant forall i :: 0 <= i < j && !seen[i] ==> pool[i] != s
    {
      if pool[j] == s && !seen[j] {
        return;
      }
      j := j + 1;
    }
    return -1;
  }

  /**
   * `nodesContain`: pair each element of `subset`, in order, with the first
   * unpaired equal element of `set`, flipping its `seen` flag; fail as soon as
   * one has no partner left.
   */
  method NodesContain(pool: seq<Node>, subset: seq<Node>) returns (found: bool)
    ensures found == Contains(pool, subset)
  {
    var seen := new bool[|pool|](_ => false);
    ghost var flags := seen[..];
    PickedNone(pool, flags);
    var i := 0;
    while i < |subset|
      invariant 0 <= i <= |subset| && seen[..] == flags && |flags| == |pool|
      invariant Picked(pool, flags) == multiset(subset[..i])
    {
      var s := subset[i];
      var j := FindUnseen(pool, seen, s);
      if j < 0 {
        forall k | 0 <= k < |pool| && !flags[k] ensures pool[k] != s {
          assert flags[k] == seen[k];
        }
        NoPartner(pool, flags, subset, i);
        return false;
      }
      assert !flags[j] by { assert flags[j] == seen[j]; }
      PickStep(pool, flags, subset, i, j);
      seen[j] := true;
      flags := flags[j := true];
      i := i + 1;
    }
    assert subset[..i] == subset;
    assert multiset(subset) <= multiset(pool) by {
      PickedSplit(pool, flags);
    }
    return true;
  }

  /** Pairing the next element of `subset` with a clear flag keeps the picked elements equal to the paired prefix. */
  lemma PickStep(pool: seq<Node>, flags: seq<bool>, subset: seq<Node>, i: nat, j: nat)
    requires |flags| == |pool| && i < |subset| && j < |pool|
    requires Picked(pool, flags) == multiset(subset[..i]) && pool[j] == subset[i] && !flags[j]
    ensures Picked(pool, flags[j := true]) == multiset(subset[..i + 1])
  {
    PickOne(pool, flags, j);
    assert subset[..i + 1] == subset[..i] + [subset[i]];
  }

  /** An element with no unpaired partner left makes the whole of `subset` uncontained. */
  lemma NoPartner(pool: seq<Node>, flags: seq<bool>, subset: seq<Node>, i: nat)
    requires |flags| == |pool| && i < |subset|
    requires Picked(pool, flags) == multiset(subset[..i])
    requires forall j :: 0 <= j < |pool| && !flags[j] ==> pool[j] != subset[i]
    ensures !Contains(pool, subset)
  {
    var s := subset[i];
    assert multiset(pool)[s] == multiset(subset[..i])[s] by {
      NoneUnpicked(pool, flags, s);
      PickedSplit(pool, flags);
    }
    assert multiset(subset[..i + 1])[s] == multiset(subset[..i])[s] + 1 by {
      assert subset[..i + 1] == subset[..i] + [s];
    }
    assert multiset(subset[..i + 1])[s] <= multiset(subset)[s] by {
      SubsetPrefix(subset, i + 1);
    }
  }

  lemma {:induction false} PickedNone(xs: seq<Node>, flags: seq<bool>)
    requires |flags| == |xs| && forall j :: 0 <= j < |xs| ==> !flags[j]
    ensures Picked(xs, flags) == multiset{}
  {
    if xs != [] {
      PickedNone(xs[..|xs| - 1], flags[..|xs| - 1]);
    }
  }

  /** A sequence whose prefix is not contained is not contained either. */
  lemma SubsetPrefix(subset: seq<Node>, k: nat)
    requires k <= |subset|
    ensures multiset(subset[..k]) <= multiset(subset)
  {
    assert subset == subset[..k] + subset[k..];
  }

  /** `baseNodesEqual`: containment both ways. */
  method BaseNodesEqual(exp: seq<Node>, act: seq<Node>) returns (eq: bool)
    ensures eq <==> multiset(exp) == multiset(act)
  {
    var forward := NodesContain(exp, act);
    var backward := NodesContain(act, exp);
    eq := forward && backward;
  }

  /** Equality as multisets ignores order: any rearrangement of the actual side compares alike. */
  lemma BaseEqualIgnoresOrder(exp: seq<Node>, act: seq<Node>, i: nat, j: nat)
    requires i < |act| && j < |act|
    ensures multiset(exp) == multiset(act)
        <==> multiset(exp) == multiset(act[i := act[j]][j := act[i]])
  {
    var swapped := act[i := act[j]][j := act[i]];
    assert multiset(swapped) == multiset(act) by {
      if i != j {
        SwapMultiset(act, i, j);
      } else {
        assert swapped == act;
      }
    }
  }

  lemma SwapMultiset(s: seq<Node>, i: nat, j: nat)
    requires i < |s| && j < |s| && i != j
    ensures multiset(s[i := s[j]][j := s[i]]) == multiset(s)
  {
    var t := s[i := s[j]];
    assert multiset(t) == multiset(s) - multiset{s[i]} + multiset{s[j]};
    assert t[j] == s[j];
    assert multiset(t[j := s[i]]) == multiset(t) - multiset{t[j]} + multiset{s[i]};
  }

  /** Equality as multisets counts duplicates: one extra copy breaks it. */
  lemma BaseEqualCountsDuplicates(exp: seq<Node>, n: Node)
    ensures multiset(exp) != multiset(exp + [n])
  {
    assert multiset(exp + [n]) == multiset(exp) + multiset{n};
    assert multiset(exp + [n])[n] == multiset(exp)[n] + 1;
  }
}

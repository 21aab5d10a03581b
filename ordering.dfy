/**
 * `ORDER BY id` over integer keys: the keys of a query's result, smallest
 * first. The collector and the report both read their rows this way.
 */
module Ordering {

  predicate Increasing(s: seq<int>) {
    forall i, j :: 0 <= i < j < |s| ==> s[i] < s[j]
  }

  /** A non-empty finite set of integers has a least element. */
  lemma {:induction false} LeastExists(s: set<int>) returns (m: int)
    requires s != {}
    ensures m in s && forall x :: x in s ==> m <= x
    decreases |s|
  {
    // A member to pick: a set with none would be empty.
    if forall y :: y !in s {
      assert false;
    }
    var x :| x in s;
    var rest := s - {x};
    if rest == {} {
      assert s == {x};
      m := x;
    } else {
      var m' := LeastExists(rest);
      assert forall y :: y in s ==> y == x || y in rest;
      m := if x < m' then x else m';
    }
  }

  /** The keys of `s` in ascending order, each once. */
  method SortedKeys(s: set<int>) returns (ks: seq<int>)
    ensures Increasing(ks)
    ensures forall x :: x in ks <==> x in s
    ensures |ks| == |s|
  {
    var rest := s;
    ks := [];
    while rest != {}
      invariant rest <= s
      invariant Increasing(ks)
      invariant forall x :: x in ks ==> x in s && x !in rest
      invariant forall x :: x in s ==> x in ks || x in rest
      invariant forall i, x :: 0 <= i < |ks| && x in rest ==> ks[i] < x
      invariant |ks| + |rest| == |s|
      decreases |rest|
    {
      // Called only to give the `:|` below a witness.
      var least := LeastExists(rest);
      var m :| m in rest && forall x :: x in rest ==> m <= x;
      ks := ks + [m];
      rest := rest - {m};
    }
  }
}

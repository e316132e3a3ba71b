/** Iteration in key order over the source's ordered sets and maps. */
module Ordering {
  ghost predicate Increasing(q: seq<nat>) {
    forall i, j :: 0 <= i < j < |q| ==> q[i] < q[j]
  }

  lemma Append(q: seq<nat>, m: nat)
    requires Increasing(q) && forall x :: x in q ==> x < m
    ensures Increasing(q + [m])
  {
    assert forall i :: 0 <= i < |q| ==> q[i] in q;
  }

  method Least(s: set<nat>) returns (m: nat)
    requires s != {}
    ensures m in s && forall x :: x in s ==> m <= x
  {
    m :| m in s;
    var others := s - {m};
    while others != {}
      invariant m in s && others <= s && forall y :: y in s && y !in others ==> m <= y
      decreases |others|
    {
      var y :| y in others;
      others := others - {y};
      if y < m {
        m := y;
      }
    }
  }

  method Sorted(s: set<nat>) returns (q: seq<nat>)
    ensures Increasing(q)
    ensures forall x :: x in q <==> x in s
  {
    q := [];
    var rest := s;
    while rest != {}
      invariant Increasing(q)
      invariant rest <= s
      invariant forall x :: x in s <==> x in q || x in rest
      invariant forall x, y :: x in q && y in rest ==> x < y
      decreases |rest|
    {
      var m := Least(rest);
      Append(q, m);
      q, rest := q + [m], rest - {m};
    }
  }
}

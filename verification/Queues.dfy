/** Several queues together, one for each priority. */
module Queues {

  /** The number of elements in all of them. */
  function Total<T>(q: seq<seq<T>>): nat {
    if q == [] then 0 else Total(q[..|q| - 1]) + |q[|q| - 1]|
  }

  lemma {:induction false} TotalUpdate<T>(q: seq<seq<T>>, p: nat, x: seq<T>)
    requires p < |q|
    ensures Total(q[p := x]) == Total(q) - |q[p]| + |x|
  {
    var r := q[p := x];
    if p == |q| - 1 {
      assert r[..|r| - 1] == q[..|q| - 1];
    } else {
      TotalUpdate(q[..|q| - 1], p, x);
      assert r[..|r| - 1] == q[..|q| - 1][p := x];
    }
  }

  lemma {:induction false} NothingInTotal<T>(q: seq<seq<T>>)
    requires forall p :: 0 <= p < |q| ==> q[p] == []
    ensures Total(q) == 0
  {
    if q != [] {
      NothingInTotal(q[..|q| - 1]);
    }
  }
}

/**
  Python dictionaries filled by assignment: `d = {}` followed by `d[k] = v`
  for each pair in turn, where a later assignment to the same key overwrites
  an earlier one.
 */
module PyDict {

  /** The dictionary left by `d = {}; for (k, v) in pairs: d[k] = v`. */
  function Assign<K, V>(pairs: seq<(K, V)>): map<K, V>
  {
    if pairs == [] then map[]
    else Assign(pairs[..|pairs| - 1])[pairs[|pairs| - 1].0 := pairs[|pairs| - 1].1]
  }

  /** One more assignment. */
  lemma AssignSnoc<K, V>(pairs: seq<(K, V)>, p: (K, V))
    ensures Assign(pairs + [p]) == Assign(pairs)[p.0 := p.1]
  {
    assert (pairs + [p])[..|pairs|] == pairs;
  }

  /** The assignments up to step `n` included. */
  lemma AssignPrefix<K, V>(pairs: seq<(K, V)>, n: int)
    requires 0 <= n < |pairs|
    ensures Assign(pairs[..n + 1]) == Assign(pairs[..n])[pairs[n].0 := pairs[n].1]
  {
    assert pairs[..n + 1][..n] == pairs[..n];
  }

  /** The keys are exactly those assigned at some step. */
  lemma {:induction false} AssignDomain<K, V>(pairs: seq<(K, V)>, k: K)
    ensures k in Assign(pairs) <==> exists i :: 0 <= i < |pairs| && pairs[i].0 == k
  {
    if pairs != [] {
      var front := pairs[..|pairs| - 1];
      AssignDomain(front, k);
      assert forall i :: 0 <= i < |front| ==> front[i] == pairs[i];
      if k in Assign(front) {
        var i :| 0 <= i < |front| && front[i].0 == k;
        assert pairs[i].0 == k;
      }
    }
  }

  /** Step `i` is the last one that assigns key `k`. */
  predicate LastAssignment<K(==), V>(pairs: seq<(K, V)>, i: int, k: K)
  {
    0 <= i < |pairs| && pairs[i].0 == k && forall j :: i < j < |pairs| ==> pairs[j].0 != k
  }

  /** The value of a key is the one of its last assignment. */
  lemma {:induction false} AssignLastWins<K, V>(pairs: seq<(K, V)>, i: int)
    requires 0 <= i < |pairs| && LastAssignment(pairs, i, pairs[i].0)
    ensures pairs[i].0 in Assign(pairs) && Assign(pairs)[pairs[i].0] == pairs[i].1
  {
    var front := pairs[..|pairs| - 1];
    if i < |pairs| - 1 {
      assert forall j :: i < j < |front| ==> front[j] == pairs[j];
      assert LastAssignment(front, i, front[i].0);
      AssignLastWins(front, i);
      assert front[i] == pairs[i];
    }
  }

  /** Every stored value comes from the last assignment to its key. */
  lemma {:induction false} AssignValueOrigin<K, V>(pairs: seq<(K, V)>, k: K)
    requires k in Assign(pairs)
    ensures exists i :: LastAssignment(pairs, i, k) && pairs[i].1 == Assign(pairs)[k]
  {
    var front := pairs[..|pairs| - 1];
    var last := pairs[|pairs| - 1];
    if last.0 == k {
      assert LastAssignment(pairs, |pairs| - 1, k);
    } else {
      AssignValueOrigin(front, k);
      var i :| LastAssignment(front, i, k) && front[i].1 == Assign(front)[k];
      assert pairs[i] == front[i];
      assert forall j :: i < j < |pairs| ==> pairs[j].0 != k by {
        forall j | i < j < |pairs| ensures pairs[j].0 != k {
          if j < |front| {
            assert pairs[j] == front[j];
          }
        }
      }
      assert LastAssignment(pairs, i, k);
    }
  }
}

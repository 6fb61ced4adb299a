/** Sums over the entries of a map in no particular order, as the indexer's
    loops over a HashMap accumulate them. Each sum is defined by picking an
    arbitrary key, and its Remove lemma shows that the result does not depend
    on which key is picked first. */
module MapSums {

  /** Some element of a non-empty key set. */
  ghost function PickFrom(ks: set<string>): (k: string)
    requires ks != {}
    ensures k in ks
  {
    var k :| k in ks; k
  }

  /** The weight of a term in a sparse vector; absent terms weigh 0. */
  function Get(m: map<string, real>, k: string): real {
    if k in m then m[k] else 0.0
  }

  /** The count of a term; absent terms count 0. */
  function GetCount(m: map<string, nat>, k: string): nat {
    if k in m then m[k] else 0
  }

  /** Sum of the counts of m over the keys ks. */
  ghost function CountsOn(m: map<string, nat>, ks: set<string>): nat
    decreases |ks|
  {
    if ks == {} then 0
    else
      var k := PickFrom(ks);
      GetCount(m, k) + CountsOn(m, ks - {k})
  }

  lemma {:induction false} CountsOnRemove(m: map<string, nat>, ks: set<string>, k: string)
    requires k in ks
    ensures CountsOn(m, ks) == GetCount(m, k) + CountsOn(m, ks - {k})
    decreases |ks|
  {
    var j := PickFrom(ks);
    if j != k {
      CountsOnRemove(m, ks - {j}, k);
      CountsOnRemove(m, ks - {k}, j);
      assert ks - {j} - {k} == ks - {k} - {j};
    }
  }

  /** Maps that agree on every key of ks have the same count sum over ks. */
  lemma {:induction false} CountsOnAgree(m1: map<string, nat>, m2: map<string, nat>, ks: set<string>)
    requires forall k :: k in ks ==> GetCount(m1, k) == GetCount(m2, k)
    ensures CountsOn(m1, ks) == CountsOn(m2, ks)
    decreases |ks|
  {
    if ks != {} {
      CountsOnAgree(m1, m2, ks - {PickFrom(ks)});
    }
  }

  /** Sum of the values of m over the keys ks. */
  ghost function ValuesOn(m: map<string, real>, ks: set<string>): real
    decreases |ks|
  {
    if ks == {} then 0.0
    else
      var k := PickFrom(ks);
      Get(m, k) + ValuesOn(m, ks - {k})
  }

  lemma {:induction false} ValuesOnRemove(m: map<string, real>, ks: set<string>, k: string)
    requires k in ks
    ensures ValuesOn(m, ks) == Get(m, k) + ValuesOn(m, ks - {k})
    decreases |ks|
  {
    var j := PickFrom(ks);
    if j != k {
      ValuesOnRemove(m, ks - {j}, k);
      ValuesOnRemove(m, ks - {k}, j);
      assert ks - {j} - {k} == ks - {k} - {j};
    }
  }

  /** Sums of non-negative values are non-negative. */
  lemma {:induction false} ValuesOnNonNegative(m: map<string, real>, ks: set<string>)
    requires forall k :: k in m ==> m[k] >= 0.0
    ensures ValuesOn(m, ks) >= 0.0
    decreases |ks|
  {
    if ks != {} {
      ValuesOnNonNegative(m, ks - {PickFrom(ks)});
    }
  }

  /** Sums of zero values are zero. */
  lemma {:induction false} ValuesOnZero(m: map<string, real>, ks: set<string>)
    requires forall k :: k in m ==> m[k] == 0.0
    ensures ValuesOn(m, ks) == 0.0
    decreases |ks|
  {
    if ks != {} {
      ValuesOnZero(m, ks - {PickFrom(ks)});
    }
  }

  /** For non-negative values, summing over a key set that covers more of
      the map's keys never gives less. */
  lemma {:induction false} ValuesOnMonotone(m: map<string, real>, ks: set<string>, js: set<string>)
    requires forall k :: k in m ==> m[k] >= 0.0
    requires forall k :: k in ks && k in m ==> k in js
    ensures ValuesOn(m, ks) <= ValuesOn(m, js)
    decreases |ks|
  {
    if ks == {} {
      ValuesOnNonNegative(m, js);
    } else {
      var k := PickFrom(ks);
      if k in m {
        ValuesOnRemove(m, js, k);
        ValuesOnMonotone(m, ks - {k}, js - {k});
      } else {
        ValuesOnMonotone(m, ks - {k}, js);
      }
    }
  }
}

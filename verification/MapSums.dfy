/** Sums of weights over the values of a map. */
module MapSums {

  ghost function AnyKey<K(!new), V>(m: map<K, V>): (k: K)
    requires |m| > 0
    ensures k in m
  {
    var k :| k in m.Keys;
    k
  }

  /** The sum of the weights of all values. */
  ghost function Sum<K(!new), V>(m: map<K, V>, weight: V -> nat): nat
    decreases |m|
  {
    if |m| == 0 then 0
    else
      var k := AnyKey(m);
      ShrinksBy(m, k);
      weight(m[k]) + Sum(m - {k}, weight)
  }

  lemma ShrinksBy<K, V>(m: map<K, V>, k: K)
    requires k in m
    ensures |m - {k}| == |m| - 1
  {
    assert (m - {k}).Keys == m.Keys - {k};
  }

  /** Any one value can be taken out first. */
  lemma {:induction false} SumWithout<K(!new), V>(m: map<K, V>, weight: V -> nat, k: K)
    requires k in m
    ensures Sum(m, weight) == weight(m[k]) + Sum(m - {k}, weight)
    decreases |m|
  {
    var first := AnyKey(m);
    if k != first {
      ShrinksBy(m, first);
      ShrinksBy(m, k);
      SumWithout(m - {first}, weight, k);
      SumWithout(m - {k}, weight, first);
      assert m - {first} - {k} == m - {k} - {first};
    }
  }

  lemma SumInsert<K(!new), V>(m: map<K, V>, weight: V -> nat, k: K, v: V)
    ensures Sum(m[k := v], weight) + (if k in m then weight(m[k]) else 0) == Sum(m, weight) + weight(v)
  {
    hide Sum;
    SumWithout(m[k := v], weight, k);
    if k in m {
      SumWithout(m, weight, k);
      assert m[k := v] - {k} == m - {k};
    } else {
      assert m[k := v] - {k} == m;
    }
  }

  lemma SumFresh<K(!new), V>(m: map<K, V>, weight: V -> nat, k: K, v: V)
    requires k !in m
    ensures Sum(m[k := v], weight) == Sum(m, weight) + weight(v)
  {
    hide Sum;
    SumInsert(m, weight, k, v);
  }

  lemma {:induction false} SumZero<K(!new), V>(m: map<K, V>, weight: V -> nat)
    requires forall k :: k in m ==> weight(m[k]) == 0
    ensures Sum(m, weight) == 0
    decreases |m|
  {
    if |m| > 0 {
      var k := AnyKey(m);
      ShrinksBy(m, k);
      SumZero(m - {k}, weight);
    }
  }

  lemma {:induction false} SumLower<K(!new), V>(m: map<K, V>, weight: V -> nat, weight': V -> nat)
    requires forall k :: k in m ==> weight(m[k]) <= weight'(m[k])
    ensures Sum(m, weight) <= Sum(m, weight')
    decreases |m|
  {
    if |m| > 0 {
      var k := AnyKey(m);
      ShrinksBy(m, k);
      SumLower(m - {k}, weight, weight');
    }
  }

  lemma {:induction false} SumPlus<K(!new), V>(m: map<K, V>, weight: V -> nat, weight': V -> nat, total: V -> nat)
    requires forall k :: k in m ==> total(m[k]) == weight(m[k]) + weight'(m[k])
    ensures Sum(m, total) == Sum(m, weight) + Sum(m, weight')
    decreases |m|
  {
    if |m| > 0 {
      var k := AnyKey(m);
      ShrinksBy(m, k);
      SumPlus(m - {k}, weight, weight', total);
    }
  }

  /** Of two weights, one never above the other, the sums agree exactly when the weights do on every value. */
  lemma {:induction false} SumsAgree<K(!new), V>(m: map<K, V>, weight: V -> nat, weight': V -> nat)
    requires forall k :: k in m ==> weight(m[k]) <= weight'(m[k])
    ensures Sum(m, weight) == Sum(m, weight') <==> forall k :: k in m ==> weight(m[k]) == weight'(m[k])
    decreases |m|
  {
    if |m| > 0 {
      var k := AnyKey(m);
      ShrinksBy(m, k);
      SumLower(m - {k}, weight, weight');
      SumsAgree(m - {k}, weight, weight');
      assert forall j :: j in m ==> j == k || j in m - {k};
    }
  }
}

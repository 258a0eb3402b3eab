/** Searches in a map whose keys are kept in order, as std::map does. */
module OrderedMap {

  datatype Option<T> = None | Some(value: T)

  ghost predicate IsUpperBound<V>(m: map<nat, V>, k: nat, r: Option<nat>) {
    if r.Some? then r.value in m && k < r.value && forall j :: j in m && k < j ==> r.value <= j
    else forall j :: j in m ==> j <= k
  }

  /** The least key above `k`. */
  method UpperBound<V>(m: map<nat, V>, k: nat) returns (r: Option<nat>)
    ensures IsUpperBound(m, k, r)
  {
    r := None;
    var keys := m.Keys;
    while keys != {}
      invariant keys <= m.Keys
      invariant r.None? ==> forall j :: j in m && j !in keys ==> j <= k
      invariant r.Some? ==> r.value in m && k < r.value && forall j :: j in m && j !in keys && k < j ==> r.value <= j
      decreases |keys|
    {
      var j :| j in keys;
      keys := keys - {j};
      if k < j && (r.None? || j < r.value) {
        r := Some(j);
      }
    }
  }

  ghost predicate IsLowerNeighbour<V>(m: map<nat, V>, k: nat, r: Option<nat>) {
    if r.Some? then r.value in m && r.value <= k && forall j :: j in m && j <= k ==> j <= r.value
    else forall j :: j in m ==> k < j
  }

  /** The greatest key not above `k`: the one before the upper bound. */
  method LowerNeighbour<V>(m: map<nat, V>, k: nat) returns (r: Option<nat>)
    ensures IsLowerNeighbour(m, k, r)
  {
    r := None;
    var keys := m.Keys;
    while keys != {}
      invariant keys <= m.Keys
      invariant r.None? ==> forall j :: j in m && j !in keys ==> k < j
      invariant r.Some? ==> r.value in m && r.value <= k && forall j :: j in m && j !in keys && j <= k ==> j <= r.value
      decreases |keys|
    {
      var j :| j in keys;
      keys := keys - {j};
      if j <= k && (r.None? || r.value < j) {
        r := Some(j);
      }
    }
  }

  /** A map has one upper bound and one lower neighbour of a key. */
  lemma BoundsAreUnique<V>(m: map<nat, V>, k: nat, above: Option<nat>, below: Option<nat>)
    requires IsUpperBound(m, k, above) && IsLowerNeighbour(m, k, below)
    ensures forall a, b :: IsUpperBound(m, k, a) && IsLowerNeighbour(m, k, b) ==> a == above && b == below
  {
  }
}

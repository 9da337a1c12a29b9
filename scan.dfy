/** The nearest-member scan of `Cluster.stickOn`, on the squared distances alone.

    The scan walks the distances in insertion order, starting from a sentinel
    bound and no candidate, and takes an index only when its distance is
    strictly below the best one seen so far: the earliest of several equally
    near members wins, and nothing is chosen when no distance is below the
    sentinel. */
module Scan {

  datatype Option<T> = None | Some(value: T)

  /** `k` is the first index holding the least distance, and that distance is below `bound`. */
  ghost predicate IsFirstMin(ds: seq<real>, k: nat, bound: real) {
    && k < |ds|
    && ds[k] < bound
    && (forall j :: 0 <= j < |ds| ==> ds[k] <= ds[j])
    && (forall j :: 0 <= j < k ==> ds[k] < ds[j])
  }

  /** The index the scan over `ds` ends with, or `None` when it never improves on `bound`.
      A chosen index is in range and below the bound; ArgMinNone and ArgMinIsFirstMin
      say which index it is. */
  function ArgMin(ds: seq<real>, bound: real): (r: Option<nat>)
    ensures r.Some? ==> r.value < |ds| && ds[r.value] < bound
    decreases |ds|
  {
    if |ds| == 0 then None
    else
      var last := |ds| - 1;
      var before := ArgMin(ds[..last], bound);
      var best := if before.Some? then ds[before.value] else bound;
      if ds[last] < best then Some(last) else before
  }

  /** The scan chooses nothing exactly when no distance is below the bound. */
  lemma {:induction false} ArgMinNone(ds: seq<real>, bound: real)
    ensures ArgMin(ds, bound).None? <==> forall j :: 0 <= j < |ds| ==> bound <= ds[j]
    decreases |ds|
  {
    if |ds| != 0 {
      var last := |ds| - 1;
      ArgMinNone(ds[..last], bound);
      assert forall j :: 0 <= j < last ==> ds[..last][j] == ds[j];
    }
  }

  /** A distance below the bound makes the scan choose some index. */
  lemma ArgMinSome(ds: seq<real>, bound: real, i: nat)
    requires i < |ds| && ds[i] < bound
    ensures ArgMin(ds, bound).Some?
  {
    ArgMinNone(ds, bound);
  }

  /** The index the scan chooses is the first least one. */
  lemma {:induction false} ArgMinIsFirstMin(ds: seq<real>, bound: real)
    requires ArgMin(ds, bound).Some?
    ensures IsFirstMin(ds, ArgMin(ds, bound).value, bound)
    decreases |ds|
  {
    var last := |ds| - 1;
    var before := ArgMin(ds[..last], bound);
    assert forall j :: 0 <= j < last ==> ds[..last][j] == ds[j];
    if before.Some? {
      ArgMinIsFirstMin(ds[..last], bound);
    } else {
      ArgMinNone(ds[..last], bound);
    }
  }

  /** At most one index is the first least one: the scan's choice is determined by the distances. */
  lemma FirstMinUnique(ds: seq<real>, bound: real, k1: nat, k2: nat)
    requires IsFirstMin(ds, k1, bound) && IsFirstMin(ds, k2, bound)
    ensures k1 == k2
  {
  }

  /** Whatever the scan picks is the first least index, so it agrees with every such index. */
  lemma ArgMinIsTheFirstMin(ds: seq<real>, bound: real, k: nat)
    requires IsFirstMin(ds, k, bound)
    ensures ArgMin(ds, bound) == Some(k)
  {
    ArgMinSome(ds, bound, k);
    ArgMinIsFirstMin(ds, bound);
    FirstMinUnique(ds, bound, ArgMin(ds, bound).value, k);
  }
}

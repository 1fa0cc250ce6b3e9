/** The slice binary search that both the sparse index and the segment list rely on. */
module Searching {

  datatype Outcome = Found(index: nat) | Missing(insertion: nat)

  ghost predicate StrictlyIncreasing(keys: seq<nat>) {
    forall i, j :: 0 <= i < j < |keys| ==> keys[i] < keys[j]
  }

  /** Total on any input; the answer is meaningful when the keys are increasing. */
  method BinarySearch(keys: seq<nat>, target: nat) returns (o: Outcome)
    ensures o.Found? ==> o.index < |keys| && keys[o.index] == target
    ensures o.Missing? ==> o.insertion <= |keys|
    ensures o.Missing? && StrictlyIncreasing(keys) ==>
              && (forall i :: 0 <= i < o.insertion ==> keys[i] < target)
              && (forall i :: o.insertion <= i < |keys| ==> target < keys[i])
  {
    var lo, hi := 0, |keys|;
    while lo < hi
      invariant 0 <= lo <= hi <= |keys|
      invariant StrictlyIncreasing(keys) ==> forall i :: 0 <= i < lo ==> keys[i] < target
      invariant StrictlyIncreasing(keys) ==> forall i :: hi <= i < |keys| ==> target < keys[i]
    {
      var mid := lo + (hi - lo) / 2;
      if keys[mid] == target {
        return Found(mid);
      } else if keys[mid] < target {
        lo := mid + 1;
      } else {
        hi := mid;
      }
    }
    return Missing(lo);
  }
}

/** Sizes of finite sets. */
module Sets {

  lemma SubsetSize(a: set<nat>, b: set<nat>)
    requires a <= b
    ensures |a| <= |b| && (|a| == |b| ==> a == b) && |b - a| == |b| - |a|
  {
    assert b == a + (b - a);
  }
}

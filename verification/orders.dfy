/** Orders that callers hand to the containers: a `leq` on keys. */
module Orders {

  /** leq is total and transitive. */
  ghost predicate TotalPreorder<K(!new)>(leq: (K, K) -> bool) {
    && (forall a, b :: leq(a, b) || leq(b, a))
    && (forall a, b, c :: leq(a, b) && leq(b, c) ==> leq(a, c))
  }

  /** Every key is `leq` each key after it. */
  ghost predicate Sorted<K>(ks: seq<K>, leq: (K, K) -> bool) {
    forall i, j :: 0 <= i < j < |ks| ==> leq(ks[i], ks[j])
  }
}

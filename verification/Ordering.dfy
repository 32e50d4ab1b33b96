/** The contract that ordered lists, sorting and hashing put on a `less` function. */
module Ordering {

  /** `less` is a strict weak order: irreflexive, transitive, and "neither is less" is transitive. */
  ghost predicate StrictWeakOrder<K(!new)>(less: (K, K) -> bool) {
    && (forall a :: !less(a, a))
    && (forall a, b, c :: less(a, b) && less(b, c) ==> less(a, c))
    && (forall a, b, c :: !less(a, b) && !less(b, c) ==> !less(a, c))
  }

  /** Neither element precedes the other. */
  predicate Equivalent<K>(less: (K, K) -> bool, a: K, b: K) {
    !less(a, b) && !less(b, a)
  }
}

/** The comparison that the containers and algorithms are parametrised by. */
module Orders {

  /** `less` is a strict weak order: irreflexive and transitive, with an
      equivalence for "neither is less". */
  ghost predicate StrictWeakOrder<K(!new)>(less: (K, K) -> bool) {
    && (forall x :: !less(x, x))
    && (forall x, y, z :: less(x, y) && less(y, z) ==> less(x, z))
    && (forall x, y, z :: less(x, z) ==> less(x, y) || less(y, z))
  }

  lemma Asymmetric<K(!new)>(less: (K, K) -> bool, x: K, y: K)
    requires StrictWeakOrder(less)
    ensures less(y, x) ==> !less(x, y)
  {
  }
}

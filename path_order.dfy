/**
 * The order on k-mer paths. A Path is an ordered list of intervals of the
 * local graph; its textual form and the definition of its `<` live outside
 * this model, so the order is a parameter that is only required to be a
 * strict total order.
 */
module PathOrder {
  ghost predicate Irreflexive<P(!new)>(less: (P, P) -> bool) {
    forall a :: !less(a, a)
  }

  ghost predicate Transitive<P(!new)>(less: (P, P) -> bool) {
    forall a, b, c :: less(a, b) && less(b, c) ==> less(a, c)
  }

  ghost predicate Connected<P(!new)>(less: (P, P) -> bool) {
    forall a, b :: a != b ==> less(a, b) || less(b, a)
  }

  ghost predicate IsStrictTotalOrder<P(!new)>(less: (P, P) -> bool) {
    Irreflexive(less) && Transitive(less) && Connected(less)
  }
}

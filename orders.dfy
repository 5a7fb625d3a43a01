/** The ordering a key type must have for `Min` and `Max`: the role that
    `Comparer<TResult>.Default` plays in .NET, reduced to a total order. */
module Orders {

  /** `le` is a total order: reflexive, antisymmetric, transitive and total. */
  ghost predicate TotalOrder<K(!new)>(le: (K, K) -> bool) {
    && (forall x :: le(x, x))
    && (forall x, y :: le(x, y) && le(y, x) ==> x == y)
    && (forall x, y, z :: le(x, y) && le(y, z) ==> le(x, z))
    && (forall x, y :: le(x, y) || le(y, x))
  }

  /** The same order read backwards: "greater or equal". */
  function Converse<K>(le: (K, K) -> bool): (K, K) -> bool
  {
    (x, y) => le(y, x)
  }

  /** The converse of a total order is a total order. */
  lemma ConverseIsTotalOrder<K(!new)>(le: (K, K) -> bool)
    requires TotalOrder(le)
    ensures TotalOrder(Converse(le))
  {
  }
}

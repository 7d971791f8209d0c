/** Comparing the sizes of finite sets. */
module Sets {
  /** There are no more sources than targets if different sources have different targets. */
  lemma {:induction false} InjectionBounds<S, T>(sources: set<S>, to: map<S, T>, targets: set<T>)
    requires sources <= to.Keys && forall i :: i in sources ==> to[i] in targets
    requires forall i, j :: i in sources && j in sources && to[i] == to[j] ==> i == j
    ensures |sources| <= |targets|
    decreases sources
  {
    if sources != {} {
      var i :| i in sources;
      InjectionBounds(sources - {i}, to, targets - {to[i]});
    }
  }

  lemma SubsetIsSmaller<T>(a: set<T>, b: set<T>)
    requires a <= b
    ensures |a| <= |b|
  {
    InjectionBounds(a, map x | x in a :: x, b);
  }
}

/** A fact about finite sets. */
module Sets {
  lemma {:induction false} CardMonotone<T>(a: set<T>, b: set<T>)
    requires a <= b
    ensures |a| <= |b|
  {
    if x :| x in a {
      CardMonotone(a - {x}, b - {x});
    }
  }
}

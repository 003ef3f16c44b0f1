/** An optional value: a null pointer or an error return, and the successful outcome. */
module Options {
  datatype Option<+T> = None | Some(value: T)
}

module Sets {
  lemma {:induction false} SubsetCard<T>(a: set<T>, b: set<T>)
    requires a <= b
    ensures |a| <= |b|
  {
    if a != {} {
      var x :| x in a;
      SubsetCard(a - {x}, b - {x});
    }
  }
}

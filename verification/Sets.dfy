/** Cardinality facts about finite sets. */
module Sets {

  lemma {:induction false} SubsetSize<T>(a: set<T>, b: set<T>)
    requires a <= b
    ensures |a| <= |b|
    ensures |a| == |b| ==> a == b
  {
    if a != {} {
      var x :| x in a;
      SubsetSize(a - {x}, b - {x});
    }
  }

  ghost predicate InjectiveOn<A(!new), B>(s: set<A>, f: A -> B) {
    forall x, y :: x in s && y in s && x != y ==> f(x) != f(y)
  }

  function Image<A(==), B(==)>(s: set<A>, f: A -> B): set<B> { set x | x in s :: f(x) }

  /** An image is as large as its source exactly when nothing collides. */
  lemma {:induction false} ImageSize<A(!new), B>(s: set<A>, f: A -> B)
    ensures |Image(s, f)| <= |s|
    ensures |Image(s, f)| == |s| <==> InjectiveOn(s, f)
  {
    if s != {} {
      var x :| x in s;
      var t := s - {x};
      ImageSize(t, f);
      if f(x) in Image(t, f) {
        assert Image(s, f) == Image(t, f);
      } else {
        assert Image(s, f) == Image(t, f) + {f(x)};
      }
    }
  }
}

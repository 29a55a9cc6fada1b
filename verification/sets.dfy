/** Sizes of finite sets. */
module Sets {
  lemma {:induction false} SubsetSize<T>(a: set<T>, b: set<T>)
    requires a <= b
    ensures |a| <= |b|
  {
    assert b == a + (b - a);
  }

  lemma {:induction false} AnotherMember<T>(s: set<T>, x: T)
    requires |s| >= 2
    ensures exists y :: y in s && y != x
  {
    var rest := s - {x};
    if rest == {} {
      SubsetSize(s, {x});
    }
    var y :| y in rest;
  }
}

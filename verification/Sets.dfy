/** How sizes of finite sets compare. */
module Sets {

  lemma {:induction false} Subset<T>(a: set<T>, b: set<T>)
    requires a <= b
    ensures |a| <= |b|
  {
    if a != {} {
      var x :| x in a;
      Subset(a - {x}, b - {x});
    }
  }

  /** The more of a finite set is covered, the less is left. */
  lemma Fewer<T>(all: set<T>, a: set<T>, b: set<T>)
    requires a < b <= all
    ensures |all - b| < |all - a|
  {
    assert !(b <= a);
    var x :| x in b && x !in a;
    Subset(all - b, all - a - {x});
    assert |all - a - {x}| == |all - a| - 1;
  }
}

/** kmalloc as the models of linked structures see it: it returns some pointer that is not in use. */
module Kmalloc {

  lemma {:induction false} FreshExists(used: set<nat>)
    ensures exists r: nat :: r != 0 && r !in used
  {
    var m := Bound(used);
    assert m + 1 !in used;
  }

  lemma {:induction false} Bound(s: set<nat>) returns (m: nat)
    ensures forall x | x in s :: x <= m
  {
    if s == {} {
      m := 0;
    } else {
      var x :| x in s;
      m := Bound(s - {x});
      if m < x {
        m := x;
      }
      forall y | y in s
        ensures y <= m
      {
        if y != x {
          assert y in s - {x};
        }
      }
    }
  }
}

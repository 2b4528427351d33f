/** Finite sets of integers in ascending order, the order in which `std::set` and
    `std::map` are iterated, and sums over them. */
module IntSets {

  lemma Member<T>(s: set<T>) returns (x: T)
    requires s != {}
    ensures x in s
  {
    x :| x in s;
  }

  lemma {:induction false} HasLeast(s: set<int>)
    requires s != {}
    ensures exists m :: m in s && forall x <- s :: m <= x
    decreases s
  {
    var y := Member(s);
    var r := s - {y};
    assert forall x <- s :: x in r || x == y;
    if r != {} {
      HasLeast(r);
      var m :| m in r && forall x <- r :: m <= x;
      var n := if m <= y then m else y;
      assert n in s && forall x <- s :: n <= x;
    } else {
      assert forall x <- s :: y <= x;
    }
  }

  function Least(s: set<int>): (m: int)
    requires s != {}
    ensures m in s && forall x <- s :: m <= x
  {
    HasLeast(s);
    var m :| m in s && forall x <- s :: m <= x;
    m
  }

  predicate Increasing(xs: seq<int>) {
    forall i, j :: 0 <= i < j < |xs| ==> xs[i] < xs[j]
  }

  /** The members of `s` in ascending order. */
  function Ascending(s: set<int>): (xs: seq<int>)
    ensures |xs| == |s| && Increasing(xs) && forall x :: x in xs <==> x in s
    decreases s
  {
    if s == {} then [] else
      var m := Least(s);
      var rest := Ascending(s - {m});
      assert forall i :: 0 <= i < |rest| ==> rest[i] in s - {m};
      assert forall x :: x in [m] + rest <==> x == m || x in rest;
      [m] + rest
  }
}

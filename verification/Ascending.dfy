/** In-order iteration over `std::set<int>` and `std::map<int, T>`: the keys in ascending order. */
module Ascending {
  predicate StrictlyAscending(q: seq<int>) {
    forall i, j :: 0 <= i < j < |q| ==> q[i] < q[j]
  }

  lemma EmptyOrInhabited(s: set<int>)
    ensures s == {} || exists y :: y in s
  {
    if forall y :: y !in s { assert s == {}; }
  }

  lemma {:induction false} LeastExists(s: set<int>)
    requires s != {}
    ensures exists m :: m in s && forall x :: x in s ==> m <= x
  {
    EmptyOrInhabited(s);
    var y :| y in s;
    var rest := s - {y};
    if rest != {} {
      LeastExists(rest);
      var m :| m in rest && forall x :: x in rest ==> m <= x;
      var least := if m < y then m else y;
      assert least in s;
      forall x | x in s ensures least <= x {
        assert x == y || x in rest;
      }
    } else {
      forall x | x in s ensures y <= x {
        assert x == y || x in rest;
      }
    }
  }

  function Least(s: set<int>): (m: int)
    requires s != {}
    ensures m in s && forall x :: x in s ==> m <= x
  {
    LeastExists(s);
    var m :| m in s && forall x :: x in s ==> m <= x;
    m
  }

  /** The elements of `s`, each once, in the order an iterator meets them. */
  function InOrder(s: set<int>): (q: seq<int>)
    ensures StrictlyAscending(q)
    ensures forall x :: x in q <==> x in s
    ensures |q| == |s|
  {
    if s == {} then [] else
      var m := Least(s);
      [m] + InOrder(s - {m})
  }
}

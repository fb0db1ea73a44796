/** Python's sorted(list(s)) for a set of integers. */
module SortedSets {

  predicate StrictlyIncreasing(s: seq<int>) {
    forall i, j :: 0 <= i < j < |s| ==> s[i] < s[j]
  }

  /** A set is empty or has an element. */
  lemma HasElement(s: set<int>)
    ensures s == {} || exists x :: x in s
  {
    if forall z :: z !in s {
      assert s == {};
    }
  }

  /** A non-empty finite set of integers has a least element. */
  lemma {:induction false} MinExists(s: set<int>)
    requires s != {}
    ensures exists x :: x in s && forall y :: y in s ==> x <= y
    decreases |s|
  {
    HasElement(s);
    var x :| x in s;
    var rest := s - {x};
    assert forall z :: z in s ==> z == x || z in rest;
    if rest != {} {
      MinExists(rest);
      var y :| y in rest && forall z :: z in rest ==> y <= z;
      if y < x {
        assert y in s && forall z :: z in s ==> y <= z;
      } else {
        assert x in s && forall z :: z in s ==> x <= z;
      }
    } else {
      assert x in s && forall z :: z in s ==> x <= z;
    }
  }

  /** sorted(list(s)): the elements of s in increasing order, each once. */
  method SortedOf(s: set<int>) returns (r: seq<int>)
    ensures StrictlyIncreasing(r)
    ensures forall x :: x in r <==> x in s
  {
    r := [];
    var rest := s;
    while rest != {}
      invariant StrictlyIncreasing(r)
      invariant forall x :: x in s <==> x in r || x in rest
      invariant forall x, y :: x in r && y in rest ==> x < y
      invariant forall x :: x in rest ==> x in s
      decreases |rest|
    {
      MinExists(rest);
      var x :| x in rest && forall y :: y in rest ==> x <= y;
      forall i | 0 <= i < |r|
        ensures r[i] < x
      {
        assert r[i] in r;
      }
      r := r + [x];
      rest := rest - {x};
    }
  }
}

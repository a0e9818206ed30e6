/** Result orderings of the list queries: the ids of the selected rows,
    largest first (`ORDER BY id DESC`) or smallest first. */
module Ordering {

  predicate Decreasing(r: seq<int>) {
    forall i, j :: 0 <= i < j < |r| ==> r[i] > r[j]
  }

  predicate Increasing(r: seq<int>) {
    forall i, j :: 0 <= i < j < |r| ==> r[i] < r[j]
  }

  /** A non-empty set has an element. Dafny has no term to trigger on in
      `exists y :: y in s`, so the witness is obtained by contradiction:
      were every `y` outside `s`, the set would be empty. */
  lemma HasElement(s: set<int>)
    requires s != {}
    ensures exists y :: y in s
  {
    if forall y :: y !in s {
      assert false;
    }
  }

  ghost function PickFrom(s: set<int>): (y: int)
    requires s != {}
    ensures y in s
  {
    HasElement(s);
    var y :| y in s; y
  }

  lemma {:induction false} HasMax(s: set<int>)
    requires s != {}
    ensures exists m :: m in s && forall x :: x in s ==> x <= m
  {
    var y := PickFrom(s);
    if s != {y} {
      HasMax(s - {y});
      var m :| m in s - {y} && forall x :: x in s - {y} ==> x <= m;
      assert forall x :: x in s ==> x == y || x in s - {y};
      if y > m {
        assert forall x :: x in s ==> x <= y;
      } else {
        assert forall x :: x in s ==> x <= m;
      }
    } else {
      assert forall x :: x in s ==> x <= y;
    }
  }

  /** The largest element of a non-empty set. */
  function Max(s: set<int>): (m: int)
    requires s != {}
    ensures m in s && forall x :: x in s ==> x <= m
  {
    HasMax(s);
    var m :| m in s && forall x :: x in s ==> x <= m; m
  }

  /** The negated elements: negation turns the largest into the smallest. */
  function Negated(s: set<int>): set<int> {
    set x | x in s :: -x
  }

  /** The smallest element of a non-empty set, as the negated largest
      element of the negated set. */
  function Min(s: set<int>): (m: int)
    requires s != {}
    ensures m in s && forall x :: x in s ==> m <= x
  {
    var y := PickFrom(s);
    assert -y in Negated(s);
    var n := Max(Negated(s));
    assert -n in s by {
      var x :| x in s && -x == n;
    }
    assert forall x :: x in s ==> -n <= x by {
      forall x | x in s
        ensures -n <= x
      {
        assert -x in Negated(s);
      }
    }
    -n
  }

  /** The elements of `s`, each once, largest first. */
  ghost function Descending(s: set<int>): (r: seq<int>)
    ensures |r| == |s| && Decreasing(r)
    ensures forall x :: x in r <==> x in s
    decreases |s|
  {
    if s == {} then []
    else
      var m := Max(s);
      [m] + Descending(s - {m})
  }

  /** The elements of `s`, each once, smallest first. */
  ghost function Ascending(s: set<int>): (r: seq<int>)
    ensures |r| == |s| && Increasing(r)
    ensures forall x :: x in r <==> x in s
    decreases |s|
  {
    if s == {} then []
    else
      var m := Min(s);
      [m] + Ascending(s - {m})
  }

  /** The rows of `table` under the keys `ids`, in that order. */
  function Rows<T>(ids: seq<int>, table: map<int, T>): (r: seq<T>)
    requires forall i :: 0 <= i < |ids| ==> ids[i] in table
    ensures |r| == |ids|
    ensures forall i :: 0 <= i < |ids| ==> r[i] == table[ids[i]]
  {
    if ids == [] then [] else [table[ids[0]]] + Rows(ids[1..], table)
  }
}

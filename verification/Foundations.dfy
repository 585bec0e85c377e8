/** Shared vocabulary: optional values, finite sets of integers in ascending
    order, and the few cardinality facts that the counting loops rely on. */
module Foundations {

  datatype Option<+T> = None | Some(value: T)

  lemma {:induction false} SubsetCardinality<T>(a: set<T>, b: set<T>)
    requires a <= b
    ensures |a| <= |b|
    ensures |a| == |b| ==> a == b
  {
    assert b == a + (b - a);
    assert |b| == |a| + |b - a|;
  }

  lemma {:induction false} ProperSubsetCardinality<T>(a: set<T>, b: set<T>, missing: T)
    requires a <= b && missing in b && missing !in a
    ensures |a| < |b|
  {
    SubsetCardinality(a, b);
  }

  // ----- least and greatest elements ------------------------------------

  lemma {:induction false} LeastExists(s: set<int>)
    requires s != {}
    ensures exists x :: x in s && forall y :: y in s ==> x <= y
    decreases |s|
  {
    var x :| x in s;
    var smaller := set y | y in s && y < x;
    if smaller != {} {
      ProperSubsetCardinality(smaller, s, x);
      LeastExists(smaller);
      var m :| m in smaller && forall y :: y in smaller ==> m <= y;
      assert forall y :: y in s ==> y in smaller || x <= y;
      assert m in s && forall y :: y in s ==> m <= y;
    } else {
      assert forall y :: y in s ==> x <= y || y in smaller;
    }
  }

  lemma {:induction false} GreatestExists(s: set<int>)
    requires s != {}
    ensures exists x :: x in s && forall y :: y in s ==> y <= x
    decreases |s|
  {
    var x :| x in s;
    var larger := set y | y in s && y > x;
    if larger != {} {
      ProperSubsetCardinality(larger, s, x);
      GreatestExists(larger);
      var m :| m in larger && forall y :: y in larger ==> y <= m;
      assert forall y :: y in s ==> y in larger || y <= x;
      assert m in s && forall y :: y in s ==> y <= m;
    } else {
      assert forall y :: y in s ==> y <= x || y in larger;
    }
  }

  function Least(s: set<int>): (m: int)
    requires s != {}
    ensures m in s && forall y :: y in s ==> m <= y
  {
    LeastExists(s);
    var m :| m in s && forall y :: y in s ==> m <= y;
    m
  }

  function Greatest(s: set<int>): (m: int)
    requires s != {}
    ensures m in s && forall y :: y in s ==> y <= m
  {
    GreatestExists(s);
    var m :| m in s && forall y :: y in s ==> y <= m;
    m
  }

  // ----- `order by id` ---------------------------------------------------

  /** The elements of a finite set in ascending order. */
  function Ascending(s: set<int>): seq<int>
    decreases |s|
  {
    if s == {} then []
    else
      var m := Least(s);
      [m] + Ascending(s - {m})
  }

  ghost predicate Enumerates(r: seq<int>, s: set<int>)
  {
    && |r| == |s|
    && (forall x :: x in r <==> x in s)
    && (forall i, j :: 0 <= i < j < |r| ==> r[i] < r[j])
  }

  lemma {:induction false} AscendingEnumerates(s: set<int>)
    ensures Enumerates(Ascending(s), s)
    decreases |s|
  {
    if s != {} {
      var m := Least(s);
      AscendingEnumerates(s - {m});
      var rest := Ascending(s - {m});
      hide Ascending, Least;
      assert forall j :: 0 <= j < |rest| ==> rest[j] in rest;
      assert forall x :: x in rest ==> m < x;
      assert Enumerates([m] + rest, s);
    }
  }

  // ----- counting ----------------------------------------------------------

  /** Seeing one more row changes a counter by one exactly when the row is counted. */
  lemma {:induction false} CountOneMore<T>(counted: set<T>, seen: set<T>, row: T)
    requires row !in seen
    ensures |counted * (seen + {row})| == |counted * seen| + (if row in counted then 1 else 0)
  {
    if row in counted {
      assert counted * (seen + {row}) == counted * seen + {row};
    } else {
      assert counted * (seen + {row}) == counted * seen;
    }
  }

  lemma {:induction false} DisjointCardinality<T>(a: set<T>, b: set<T>)
    requires a !! b
    ensures |a + b| == |a| + |b|
  {
  }

  lemma {:induction false} RemainderCardinality<T>(whole: set<T>, part: set<T>)
    requires part <= whole
    ensures |whole - part| == |whole| - |part|
  {
    assert part + (whole - part) == whole;
  }

  /** Moving one element from what is left to what is done. */
  lemma {:induction false} OneFewerLeft<T>(whole: set<T>, left: set<T>, x: T)
    requires left <= whole && x in left
    ensures whole - (left - {x}) == (whole - left) + {x}
    ensures |whole - (left - {x})| == |whole - left| + 1
  {
    assert whole - (left - {x}) == (whole - left) + {x};
  }
}

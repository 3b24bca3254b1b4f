/**
  Total orders given as a `<=` relation, the least element of a finite set
  under such an order, and the ascending enumeration of a finite set: the
  order in which an ordered set (a B-tree set) yields its elements.
 */
module Ordering {

  /** `le` is a total order: reflexive, antisymmetric, transitive and total. */
  ghost predicate TotalOrder<T(!new)>(le: (T, T) -> bool) {
    && (forall x :: le(x, x))
    && (forall x, y :: le(x, y) && le(y, x) ==> x == y)
    && (forall x, y, z :: le(x, y) && le(y, z) ==> le(x, z))
    && (forall x, y :: le(x, y) || le(y, x))
  }

  ghost predicate IsLeast<T(!new)>(m: T, s: set<T>, le: (T, T) -> bool) {
    m in s && forall x :: x in s ==> le(m, x)
  }

  /** No two positions hold the same element, and the elements ascend. */
  ghost predicate StrictlyAscending<T(!new)>(r: seq<T>, le: (T, T) -> bool) {
    forall i, j :: 0 <= i < j < |r| ==> le(r[i], r[j]) && r[i] != r[j]
  }

  /** Every non-empty finite set has a least element under a total order. */
  lemma {:induction false} LeastExists<T(!new)>(s: set<T>, le: (T, T) -> bool)
    requires TotalOrder(le) && s != {}
    ensures exists m :: IsLeast(m, s, le)
  {
    var x :| x in s;
    if s == {x} {
      assert IsLeast(x, s, le);
    } else {
      LeastExists(s - {x}, le);
      var m :| IsLeast(m, s - {x}, le);
      if le(x, m) {
        assert IsLeast(x, s, le);
      } else {
        assert IsLeast(m, s, le);
      }
    }
  }

  /** The least element of a non-empty set; antisymmetry makes it unique. */
  function Least<T(!new)>(s: set<T>, le: (T, T) -> bool): (m: T)
    requires TotalOrder(le) && s != {}
    ensures IsLeast(m, s, le)
  {
    LeastExists(s, le);
    var m :| m in s && forall x | x in s :: le(m, x); m
  }

  /** The elements of `s` in ascending order, each once. */
  function Ascending<T(!new)>(s: set<T>, le: (T, T) -> bool): (r: seq<T>)
    requires TotalOrder(le)
    ensures |r| == |s|
    ensures forall x :: x in r <==> x in s
    ensures StrictlyAscending(r, le)
    decreases s
  {
    if s == {} then []
    else
      var m := Least(s, le);
      [m] + Ascending(s - {m}, le)
  }

  /** The ascending enumeration is the only strictly ascending sequence of the set's elements. */
  lemma {:induction false} AscendingUnique<T(!new)>(s: set<T>, q: seq<T>, le: (T, T) -> bool)
    requires TotalOrder(le)
    requires StrictlyAscending(q, le)
    requires forall x :: x in q <==> x in s
    ensures q == Ascending(s, le)
  {
    if q == [] {
      assert forall x :: x !in s;
    } else {
      assert s != {} by { assert q[0] in s; }
      var m := Least(s, le);
      assert IsLeast(q[0], s, le) by {
        forall x | x in s ensures le(q[0], x) {
          var i :| 0 <= i < |q| && q[i] == x;
          if i > 0 {
            assert le(q[0], q[i]);
          }
        }
      }
      assert q[0] == m;
      forall x ensures x in q[1..] <==> x in s - {m} {
        if x in q[1..] {
          var i :| 1 <= i < |q| && q[i] == x;
          assert q[0] != q[i];
        }
        if x in s - {m} {
          assert x in q;
          var i :| 0 <= i < |q| && q[i] == x;
          assert i != 0;
          assert q[1..][i - 1] == x;
        }
      }
      assert StrictlyAscending(q[1..], le) by {
        forall i, j | 0 <= i < j < |q[1..]| ensures le(q[1..][i], q[1..][j]) && q[1..][i] != q[1..][j] {
          assert q[1..][i] == q[i + 1] && q[1..][j] == q[j + 1];
        }
      }
      AscendingUnique(s - {m}, q[1..], le);
      assert q == [q[0]] + q[1..];
    }
  }
}

/** Sets of row ids listed in ascending order, as `ORDER BY id ASC` does. */
module Ordering {

  predicate IsLeast(m: nat, s: set<nat>) {
    m in s && forall x | x in s :: m <= x
  }

  lemma {:induction false} LeastExists(s: set<nat>) returns (m: nat)
    requires s != {}
    ensures IsLeast(m, s)
  {
    var y :| y in s;
    m := y;
    if s != {y} {
      var rest := s - {y};
      assert s == rest + {y};
      var m' := LeastExists(rest);
      m := if m' <= y then m' else y;
    }
  }

  function Least(s: set<nat>): (m: nat)
    requires s != {}
    ensures IsLeast(m, s)
  {
    assert exists m :: IsLeast(m, s) by {
      var m := LeastExists(s);
    }
    var m :| m in s && IsLeast(m, s);
    m
  }

  function Sorted(s: set<nat>): (q: seq<nat>)
    ensures |q| == |s|
    ensures forall x | x in q :: x in s
    ensures forall x | x in s :: x in q
  {
    if s == {} then [] else [Least(s)] + Sorted(s - {Least(s)})
  }

  ghost predicate Ascending(q: seq<nat>) {
    forall i, j | 0 <= i < j < |q| :: q[i] < q[j]
  }

  ghost predicate Lists(q: seq<nat>, s: set<nat>) {
    forall x: nat :: x in q <==> x in s
  }

  lemma {:induction false} AscendingCons(m: nat, q: seq<nat>)
    requires Ascending(q) && forall x | x in q :: m < x
    ensures Ascending([m] + q)
  {
    forall i, j | 0 <= i < j < |q| + 1 ensures ([m] + q)[i] < ([m] + q)[j] {
      assert ([m] + q)[j] == q[j - 1];
      assert q[j - 1] in q;
    }
  }

  lemma {:induction false} SortedAscends(s: set<nat>)
    ensures Ascending(Sorted(s))
  {
    if s != {} {
      var rest := s - {Least(s)};
      SortedAscends(rest);
      AscendingCons(Least(s), Sorted(rest));
    }
  }

  /** Only one ascending sequence lists a set. */
  lemma {:induction false} SortedUnique(s: set<nat>, q: seq<nat>)
    requires Ascending(q) && Lists(q, s)
    ensures q == Sorted(s)
  {
    if q == [] {
      assert forall x | x in s :: x in q;
    } else {
      assert q[0] in s;
      assert Least(s) in q;
      assert Least(s) == q[0];
      var rest := s - {q[0]};
      assert q == [q[0]] + q[1..];
      SortedUnique(rest, q[1..]);
    }
  }

  /** The elements of `s` greater than `m`. */
  function Above(s: set<nat>, m: nat): set<nat> {
    set x | x in s && x > m
  }

  /** What follows a first part of an ascending list lists the greater elements. */
  lemma {:induction false} AscendingTail(s: set<nat>, q: seq<nat>, n: nat)
    requires Ascending(q) && Lists(q, s) && 0 < n <= |q|
    ensures Lists(q[n..], Above(s, q[n - 1]))
    ensures forall x | x in s && x <= q[n - 1] :: x in q[..n]
  {
    forall x | x in s
      ensures x > q[n - 1] ==> x in q[n..]
      ensures x <= q[n - 1] ==> x in q[..n]
    {
      var i :| 0 <= i < |q| && q[i] == x;
      if i < n {
        assert q[..n][i] == x;
      } else {
        assert q[n..][i - n] == x;
      }
    }
    forall x | x in q[n..] ensures x in Above(s, q[n - 1]) {
      var i :| 0 <= i < |q[n..]| && q[n..][i] == x;
      assert q[n + i] == x;
    }
  }

  lemma {:induction false} AscendingDrop(q: seq<nat>, n: nat)
    requires Ascending(q) && n <= |q|
    ensures Ascending(q[n..])
  {
  }

  /** The `n` least elements, in order. */
  function First(s: set<nat>, n: nat): (q: seq<nat>)
    requires n <= |s|
    ensures |q| == n
    ensures forall x | x in q :: x in s
  {
    var q := Sorted(s)[..n];
    assert forall i | 0 <= i < n :: q[i] == Sorted(s)[i] && Sorted(s)[i] in s;
    q
  }

  lemma {:induction false} AscendingTake(q: seq<nat>, n: nat)
    requires Ascending(q) && 0 < n <= |q|
    ensures Ascending(q[..n]) && forall x | x in q[..n] :: x <= q[n - 1]
  {
  }

  /** A non-empty first part of the list: ascending, up to its last element, with
      nothing skipped. */
  lemma {:induction false} FirstAscends(s: set<nat>, n: nat)
    requires 0 < n <= |s|
    ensures var q := First(s, n);
            && Ascending(q)
            && (forall x | x in q :: x <= q[n - 1])
            && (forall x | x in s && x <= q[n - 1] :: x in q)
  {
    SortedAscends(s);
    AscendingTake(Sorted(s), n);
    AscendingTail(s, Sorted(s), n);
  }

  /** What follows it lists the greater elements. */
  lemma {:induction false} FirstThenAbove(s: set<nat>, n: nat)
    requires 0 < n <= |s|
    ensures Sorted(s) == First(s, n) + Sorted(Above(s, First(s, n)[n - 1]))
  {
    SortedAscends(s);
    AscendingTail(s, Sorted(s), n);
    AscendingDrop(Sorted(s), n);
    SortedUnique(Above(s, Sorted(s)[n - 1]), Sorted(s)[n..]);
  }

  lemma {:induction false} AscendingConcat(q: seq<nat>, r: seq<nat>, m: nat)
    requires Ascending(q) && Ascending(r)
    requires (forall x | x in q :: x <= m) && (forall x | x in r :: m < x)
    ensures Ascending(q + r)
  {
    forall i, j | 0 <= i < j < |q + r| ensures (q + r)[i] < (q + r)[j] {
      assert i < |q| ==> (q + r)[i] == q[i] && q[i] in q;
      assert j >= |q| ==> (q + r)[j] == r[j - |q|] && r[j - |q|] in r;
    }
  }

  ghost predicate Distinct(q: seq<nat>) {
    forall i, j | 0 <= i < j < |q| :: q[i] != q[j]
  }

  lemma {:induction false} DistinctSize(q: seq<nat>, s: set<nat>)
    requires Distinct(q) && Lists(q, s)
    ensures |q| == |s|
  {
    if q == [] {
      assert forall x | x in s :: x in q;
      assert s == {};
    } else {
      assert q[0] in s;
      var rest := s - {q[0]};
      assert q == [q[0]] + q[1..];
      DistinctSize(q[1..], rest);
    }
  }

  /** A subset is no larger, and as large only if it is the whole set. */
  lemma {:induction false} SubsetSize(s: set<nat>, t: set<nat>)
    requires s <= t
    ensures |s| <= |t| && (|s| == |t| <==> s == t)
  {
    assert t == s + (t - s);
    assert |t| == |s| + |t - s|;
  }

  lemma {:induction false} BoundedSize(s: set<nat>, n: nat)
    requires forall x | x in s :: x < n
    ensures |s| <= n
  {
    if n == 0 {
      assert s == {};
    } else {
      BoundedSize(s - {n - 1}, n - 1);
      SubsetSize(s, (s - {n - 1}) + {n - 1});
    }
  }
}

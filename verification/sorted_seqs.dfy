/** Ordered enumeration of integer step numbers: listing a set in ascending
    order (Python's `sorted(d.keys())`), sorting a list with duplicates
    (`list.sort`) and the right-insertion-point search of `bisect.bisect_right`. */
module SortedSeqs {

  ghost predicate StrictlyIncreasing(s: seq<int>) {
    forall i, j :: 0 <= i < j < |s| ==> s[i] < s[j]
  }

  ghost predicate NonDecreasing(s: seq<int>) {
    forall i, j :: 0 <= i < j < |s| ==> s[i] <= s[j]
  }

  predicate IsMinOf(m: int, s: set<int>) {
    m in s && forall y :: y in s ==> m <= y
  }

  /** Some element of a non-empty set. */
  lemma PickOne(s: set<int>) returns (x: int)
    requires s != {}
    ensures x in s
  {
    assert exists y :: y in s by {
      if forall y :: y !in s {
        assert false;
      }
    }
    x :| x in s;
  }

  lemma {:induction false} MinExists(s: set<int>)
    requires s != {}
    ensures exists m :: IsMinOf(m, s)
    decreases s
  {
    var x := PickOne(s);
    if s != {x} {
      var rest := s - {x};
      MinExists(rest);
      var m :| IsMinOf(m, rest);
      assert forall y :: y in s ==> y == x || y in rest;
      if x < m {
        assert IsMinOf(x, s);
      } else {
        assert IsMinOf(m, s);
      }
    } else {
      assert IsMinOf(x, s);
    }
  }

  /** The least element of a non-empty finite set. */
  function Min(s: set<int>): (m: int)
    requires s != {}
    ensures m in s
    ensures forall y :: y in s ==> m <= y
  {
    MinExists(s);
    var m :| IsMinOf(m, s);
    m
  }

  /** The elements of `s`, each once, in ascending order. */
  function Ascending(s: set<int>): (r: seq<int>)
    ensures StrictlyIncreasing(r)
    ensures forall x :: x in r <==> x in s
    ensures |r| == |s|
    decreases s
  {
    if s == {} then []
    else
      var m := Min(s);
      [m] + Ascending(s - {m})
  }

  /** Two strictly increasing listings of the same elements are equal, so a
      listing of a set with this property is `Ascending` of it. */
  lemma {:induction false} AscendingUnique(a: seq<int>, b: seq<int>)
    requires StrictlyIncreasing(a) && StrictlyIncreasing(b)
    requires forall x :: x in a <==> x in b
    requires |a| == |b|
    ensures a == b
    decreases |a|
  {
    if a != [] && b != [] {
      assert a[0] in a && b[0] in b;
      assert a[0] == b[0];
      forall x
        ensures x in a[1..] <==> x in b[1..]
      {
        if x in a[1..] {
          var i :| 1 <= i < |a| && a[i] == x;
          assert a[0] < x;
          assert x in b;
        }
        if x in b[1..] {
          var i :| 1 <= i < |b| && b[i] == x;
          assert b[0] < x;
          assert x in a;
        }
      }
      AscendingUnique(a[1..], b[1..]);
      assert a == [a[0]] + a[1..];
      assert b == [b[0]] + b[1..];
    }
  }

  /** Inserts `x` into a sorted list after every element not greater than it. */
  function Insert(x: int, s: seq<int>): (r: seq<int>)
    requires NonDecreasing(s)
    ensures NonDecreasing(r)
    ensures multiset(r) == multiset(s) + multiset{x}
    ensures |r| == |s| + 1
    ensures forall k :: 0 <= k < |r| ==> r[k] == x || r[k] in s
  {
    if s == [] then [x]
    else if x <= s[0] then [x] + s
    else
      assert s == [s[0]] + s[1..];
      var t := Insert(x, s[1..]);
      [s[0]] + t
  }

  /** `list.sort()` on integers: a non-decreasing permutation of the input. */
  function Sort(s: seq<int>): (r: seq<int>)
    ensures NonDecreasing(r)
    ensures multiset(r) == multiset(s)
    ensures |r| == |s|
  {
    if s == [] then []
    else
      assert s == [s[0]] + s[1..];
      Insert(s[0], Sort(s[1..]))
  }

  /** `bisect.bisect_right(s, x, lo, hi)`: the binary search for the insertion
      point right of every element not greater than `x`. */
  function BisectRight(s: seq<int>, x: int, lo: nat, hi: nat): (i: nat)
    requires NonDecreasing(s)
    requires lo <= hi <= |s|
    ensures lo <= i <= hi
    ensures forall j :: lo <= j < i ==> s[j] <= x
    ensures forall j :: i <= j < hi ==> x < s[j]
    decreases hi - lo
  {
    if lo == hi then lo
    else
      var mid := (lo + hi) / 2;
      if x < s[mid] then BisectRight(s, x, lo, mid)
      else BisectRight(s, x, mid + 1, hi)
  }

  /** Python's `s[-n:]` for a positive `n`: the last `n` elements, or all. */
  function LastN(s: seq<int>, n: nat): (r: seq<int>)
    ensures |r| == if n < |s| then n else |s|
    ensures forall k :: 0 <= k < |r| ==> r[k] == s[|s| - |r| + k]
  {
    if n < |s| then s[|s| - n..] else s
  }
}

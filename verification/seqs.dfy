/** Sequence helpers shared by the fleet and week-grouping code. */
module Seqs {

  datatype Option<+T> = None | Some(value: T)

  predicate NoDuplicates(s: seq<int>)
  {
    forall i, j :: 0 <= i < j < |s| ==> s[i] != s[j]
  }

  /** The elements of `s` other than `x`, in their original order. */
  function Drop(s: seq<int>, x: int): (r: seq<int>)
    ensures |r| <= |s|
    ensures x in s ==> |r| < |s|
    ensures forall y :: y in r <==> y in s && y != x
  {
    if s == [] then []
    else if s[0] == x then Drop(s[1..], x)
    else [s[0]] + Drop(s[1..], x)
  }

  /**
    The distinct elements of `s` in order of first appearance, as LINQ's
    `Distinct()` enumerates them: the first element, then the distinct
    elements of what is left once every copy of it is dropped.
  */
  function Distinct(s: seq<int>): (r: seq<int>)
    ensures NoDuplicates(r)
    ensures forall y :: y in r <==> y in s
    ensures |r| <= |s|
    ensures |s| > 0 ==> |r| > 0 && r[0] == s[0]
    decreases |s|
  {
    if s == [] then []
    else [s[0]] + Distinct(Drop(s, s[0]))
  }

  /** Two sequences with the same members still have the same members once the first one's head is taken off both. */
  lemma SameMembersAfterHead(a: seq<int>, b: seq<int>)
    requires NoDuplicates(a) && a != []
    requires forall w :: w in a <==> w in b
    ensures forall w :: w in a[1..] <==> w in Drop(b, a[0])
  {
    NoDuplicatesTail(a);
    assert a == [a[0]] + a[1..];
  }

  /** A sequence without duplicates has as many elements as its set. */
  lemma {:induction false} NoDuplicatesCardinality(s: seq<int>)
    requires NoDuplicates(s)
    ensures |set x | x in s| == |s|
  {
    if s != [] {
      var rest := s[1..];
      assert NoDuplicates(rest) by {
        forall i, j | 0 <= i < j < |rest| ensures rest[i] != rest[j] {
          assert rest[i] == s[i + 1] && rest[j] == s[j + 1];
        }
      }
      NoDuplicatesCardinality(rest);
      assert s[0] !in rest by {
        forall k | 0 <= k < |rest| ensures rest[k] != s[0] {
          assert rest[k] == s[k + 1];
        }
      }
      assert (set x | x in s) == (set x | x in rest) + {s[0]} by {
        assert s == [s[0]] + rest;
      }
    }
  }

  /** The number of distinct elements is the size of the set of elements. */
  lemma DistinctCardinality(s: seq<int>)
    ensures |Distinct(s)| == |set x | x in s|
  {
    var r := Distinct(s);
    NoDuplicatesCardinality(r);
    assert (set x | x in r) == (set x | x in s);
  }

  lemma SubsetCardinality(a: set<int>, b: set<int>)
    requires a <= b
    ensures |a| <= |b|
  {
    assert b == a + (b - a);
  }

  /** A sequence whose elements all occur in another has no more distinct elements. */
  lemma DistinctSubsetCardinality(a: seq<int>, b: seq<int>)
    requires forall x :: x in a ==> x in b
    ensures |Distinct(a)| <= |Distinct(b)|
  {
    DistinctCardinality(a);
    DistinctCardinality(b);
    var sa, sb := set x | x in a, set x | x in b;
    assert sa <= sb;
    assert |sa| <= |sb| by { SubsetCardinality(sa, sb); }
  }

  /** Putting an element in front of a duplicate-free sequence that lacks it keeps it duplicate-free. */
  lemma NoDuplicatesCons(x: int, s: seq<int>)
    requires NoDuplicates(s)
    requires x !in s
    ensures NoDuplicates([x] + s)
  {
    var r := [x] + s;
    forall i, j | 0 <= i < j < |r|
      ensures r[i] != r[j]
    {
      assert r[j] == s[j - 1];
      if i > 0 {
        assert r[i] == s[i - 1];
      }
    }
  }

  /** The tail of a duplicate-free sequence is duplicate-free and lacks the head. */
  lemma NoDuplicatesTail(s: seq<int>)
    requires |s| > 0
    requires NoDuplicates(s)
    ensures NoDuplicates(s[1..])
    ensures s[0] !in s[1..]
  {
    forall k | 0 <= k < |s| - 1
      ensures s[1..][k] != s[0]
    {
      assert s[1..][k] == s[k + 1];
    }
  }

  /** Dropping an element that does not occur changes nothing. */
  lemma {:induction false} DropAbsent(s: seq<int>, x: int)
    requires x !in s
    ensures Drop(s, x) == s
  {
    if s != [] {
      assert x !in s[1..];
      DropAbsent(s[1..], x);
    }
  }

  /** Dropping an element keeps a sequence duplicate-free. */
  lemma {:induction false} DropNoDuplicates(s: seq<int>, x: int)
    requires NoDuplicates(s)
    ensures NoDuplicates(Drop(s, x))
  {
    if s != [] {
      NoDuplicatesTail(s);
      DropNoDuplicates(s[1..], x);
      if s[0] != x {
        NoDuplicatesCons(s[0], Drop(s[1..], x));
      }
    }
  }

  /** The elements of `s` that also occur in `among`, in their original order. */
  function Keep(s: seq<int>, among: seq<int>): (r: seq<int>)
    ensures |r| <= |s|
    ensures forall y :: y in r <==> y in s && y in among
  {
    if s == [] then []
    else if s[0] in among then [s[0]] + Keep(s[1..], among)
    else Keep(s[1..], among)
  }

  /** Keeping some elements keeps a sequence duplicate-free. */
  lemma {:induction false} KeepNoDuplicates(s: seq<int>, among: seq<int>)
    requires NoDuplicates(s)
    ensures NoDuplicates(Keep(s, among))
  {
    if s != [] {
      NoDuplicatesTail(s);
      KeepNoDuplicates(s[1..], among);
      if s[0] in among {
        NoDuplicatesCons(s[0], Keep(s[1..], among));
      }
    }
  }

  /** Two duplicate-free sequences with the same elements have the same length. */
  lemma SameElementsSameLength(a: seq<int>, b: seq<int>)
    requires NoDuplicates(a) && NoDuplicates(b)
    requires forall y :: y in a <==> y in b
    ensures |a| == |b|
  {
    NoDuplicatesCardinality(a);
    NoDuplicatesCardinality(b);
    assert (set y | y in a) == (set y | y in b);
  }
}

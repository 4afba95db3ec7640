/**
 `list.sort()` on a list of strings. Python's sort is a Timsort. Because
 `<=` on strings is a total order, every sorting algorithm produces the same
 list, so `SortedPermutationUnique` lets insertion sort stand in for it.
 */
module Sorting {
  import opened Strings

  predicate Sorted(s: seq<string>) {
    forall i, j :: 0 <= i < j < |s| ==> LessEq(s[i], s[j])
  }

  /** Puts `x` into a list after every leading element that sorts strictly before it. */
  function Insert(x: string, s: seq<string>): (r: seq<string>)
    ensures multiset(r) == multiset(s) + multiset{x}
  {
    if |s| == 0 then [x]
    else if LessEq(x, s[0]) then [x] + s
    else
      assert s == [s[0]] + s[1..];
      [s[0]] + Insert(x, s[1..])
  }

  /** Inserting into a sorted list keeps it sorted. */
  lemma {:induction false} InsertSorted(x: string, s: seq<string>)
    requires Sorted(s)
    ensures Sorted(Insert(x, s))
    decreases |s|
  {
    if |s| == 0 {
    } else if LessEq(x, s[0]) {
      forall j | 0 <= j < |s|
        ensures LessEq(x, s[j])
      {
        if j > 0 { LessEqTransitive(x, s[0], s[j]); }
      }
    } else {
      LessEqTotal(x, s[0]);
      InsertSorted(x, s[1..]);
      var rest := Insert(x, s[1..]);
      forall j | 0 <= j < |rest|
        ensures LessEq(s[0], rest[j])
      {
        assert rest[j] in multiset(rest);
        if rest[j] != x {
          assert rest[j] in multiset(s[1..]);
          var k :| 0 <= k < |s[1..]| && s[1..][k] == rest[j];
          assert s[k + 1] == rest[j];
        }
      }
    }
  }

  function Sort(s: seq<string>): (r: seq<string>)
    ensures Sorted(r)
    ensures multiset(r) == multiset(s)
  {
    if |s| == 0 then []
    else
      assert s == [s[0]] + s[1..];
      InsertSorted(s[0], Sort(s[1..]));
      Insert(s[0], Sort(s[1..]))
  }

  /** Two sorted lists holding the same strings the same number of times are equal. */
  lemma {:induction false} SortedPermutationUnique(a: seq<string>, b: seq<string>)
    requires Sorted(a) && Sorted(b)
    requires multiset(a) == multiset(b)
    ensures a == b
    decreases |a|
  {
    if |a| == 0 {
      assert |b| == |multiset(b)| == 0;
    } else {
      SortedHeadsEqual(a, b);
      assert a == [a[0]] + a[1..];
      assert b == [b[0]] + b[1..];
      assert multiset(a) == multiset{a[0]} + multiset(a[1..]);
      assert multiset(b) == multiset{b[0]} + multiset(b[1..]);
      assert multiset(a[1..]) == multiset(a) - multiset{a[0]};
      assert multiset(b[1..]) == multiset(b) - multiset{b[0]};
      SortedPermutationUnique(a[1..], b[1..]);
    }
  }

  /** Two sorted permutations of a non-empty list start with the same element. */
  lemma SortedHeadsEqual(a: seq<string>, b: seq<string>)
    requires Sorted(a) && Sorted(b)
    requires multiset(a) == multiset(b) && |a| > 0
    ensures |b| > 0 && a[0] == b[0]
  {
    assert |b| == |multiset(b)| == |multiset(a)| == |a|;
    assert a[0] in multiset(b);
    var j :| 0 <= j < |b| && b[j] == a[0];
    assert b[0] in multiset(a);
    var i :| 0 <= i < |a| && a[i] == b[0];
    LessEqReflexive(a[0]);
    assert LessEq(a[0], b[0]) by {
      if i > 0 { assert LessEq(a[0], a[i]); }
    }
    assert LessEq(b[0], a[0]) by {
      if j > 0 { assert LessEq(b[0], b[j]); }
    }
    LessEqAntisymmetric(a[0], b[0]);
  }

  /** `Sort` gives exactly the list a correct `list.sort()` gives. */
  lemma SortIsTheSortedPermutation(s: seq<string>, t: seq<string>)
    requires Sorted(t) && multiset(t) == multiset(s)
    ensures Sort(s) == t
  {
    SortedPermutationUnique(Sort(s), t);
  }

  /** `p + s[i]` for every element, in order. */
  function Prefixed(p: string, s: seq<string>): (r: seq<string>)
    ensures |r| == |s|
    ensures forall i :: 0 <= i < |s| ==> r[i] == p + s[i]
  {
    if |s| == 0 then [] else [p + s[0]] + Prefixed(p, s[1..])
  }

  lemma {:induction false} InsertUnderPrefix(p: string, x: string, s: seq<string>)
    ensures Insert(p + x, Prefixed(p, s)) == Prefixed(p, Insert(x, s))
    decreases |s|
  {
    if |s| > 0 {
      LessEqUnderPrefix(p, x, s[0]);
      assert Prefixed(p, s)[1..] == Prefixed(p, s[1..]);
      if !LessEq(x, s[0]) {
        InsertUnderPrefix(p, x, s[1..]);
      }
    }
  }

  /** Sorting strings that share a prefix orders them by what follows the prefix. */
  lemma {:induction false} SortUnderPrefix(p: string, s: seq<string>)
    ensures Sort(Prefixed(p, s)) == Prefixed(p, Sort(s))
    decreases |s|
  {
    if |s| > 0 {
      assert Prefixed(p, s)[1..] == Prefixed(p, s[1..]);
      SortUnderPrefix(p, s[1..]);
      InsertUnderPrefix(p, s[0], Sort(s[1..]));
    }
  }
}

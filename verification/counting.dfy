/** Cardinalities of finite sets of naturals, and permutations. */
module Counting {
  ghost function Range(n: nat): (r: set<nat>)
    ensures |r| == n && forall i :: i in r <==> 0 <= i < n
  {
    if n == 0 then {} else Range(n - 1) + {n - 1}
  }

  lemma {:induction false} SubsetSize<T>(a: set<T>, b: set<T>)
    requires a <= b
    ensures |a| <= |b|
  {
    if a != {} {
      var x :| x in a;
      SubsetSize(a - {x}, b - {x});
    }
  }

  ghost predicate Distinct(s: seq<nat>) {
    forall j, k :: 0 <= j < k < |s| ==> s[j] != s[k]
  }

  ghost function Elements(s: seq<nat>): set<nat> {
    set x | x in s
  }

  lemma {:induction false} DistinctSize(s: seq<nat>)
    requires Distinct(s)
    ensures |Elements(s)| == |s|
  {
    if s != [] {
      var front, last := s[..|s| - 1], s[|s| - 1];
      DistinctSize(front);
      assert s == front + [last];
      assert Elements(s) == Elements(front) + {last};
    }
  }

  /** A duplicate-free list of numbers below n has at most n entries, and exactly n if it misses none. */
  lemma DistinctBelow(s: seq<nat>, n: nat)
    requires Distinct(s) && forall x :: x in s ==> x < n
    ensures |s| <= n
    ensures |s| == n <==> forall x :: 0 <= x < n ==> x in s
    ensures (exists x: nat :: x < n && x !in s) ==> |s| < n
  {
    DistinctSize(s);
    assert Elements(s) <= Range(n);
    SubsetSize(Elements(s), Range(n));
    forall x: nat | x < n && x !in s
      ensures |s| < n
    {
      SubsetSize(Elements(s), Range(n) - {x});
    }
    if forall x :: 0 <= x < n ==> x in s {
      assert Elements(s) == Range(n);
    }
  }

  /** f and g are inverse permutations of the numbers below n. */
  ghost predicate Inverse(n: nat, f: seq<nat>, g: seq<nat>) {
    && |f| == |g| == n
    && (forall i :: 0 <= i < n ==> f[i] < n && g[f[i]] == i)
    && (forall i :: 0 <= i < n ==> g[i] < n && f[g[i]] == i)
  }
}

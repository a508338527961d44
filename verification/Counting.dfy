/** Counting facts about finite sets and sequences without repetition. */
module Counting {
  ghost predicate NoRepeat<T>(s: seq<T>) {
    forall j: nat, k: nat | j < k < |s| :: s[j] != s[k]
  }

  ghost function UpTo(n: nat): (r: set<nat>)
    ensures |r| == n && forall x: nat :: x in r <==> x < n
  {
    if n == 0 then {} else UpTo(n - 1) + {n - 1}
  }

  lemma {:induction false} ElementsCount<T>(s: seq<T>)
    requires NoRepeat(s)
    ensures |set x | x in s| == |s|
  {
    if s != [] {
      var front, last := s[..|s| - 1], s[|s| - 1];
      ElementsCount(front);
      assert (set x | x in s) == (set x | x in front) + {last};
      assert last !in front;
    }
  }

  lemma SubsetCount<T>(a: set<T>, b: set<T>)
    requires a <= b
    ensures |a| <= |b|
    ensures |a| == |b| ==> a == b
  {
    assert b == a + (b - a);
  }

  lemma DifferenceCount<T>(a: set<T>, b: set<T>)
    requires a <= b
    ensures |b - a| == |b| - |a|
  {
    assert b == a + (b - a);
  }

  /** n different numbers below n are all the numbers below n. */
  lemma FullSet(s: set<nat>, n: nat)
    requires |s| == n && forall x | x in s :: x < n
    ensures forall x: nat | x < n :: x in s
  {
    SubsetCount(s, UpTo(n));
  }

  lemma AtLeastAll(s: set<nat>, n: nat)
    requires |s| >= n && forall x | x in s :: x < n
    ensures |s| == n && forall x: nat | x < n :: x in s
  {
    SubsetCount(s, UpTo(n));
    FullSet(s, n);
  }

  lemma CoversAll(s: seq<nat>, n: nat, x: nat)
    requires NoRepeat(s) && |s| == n && (forall k: nat | k < n :: s[k] < n) && x < n
    ensures x in s
  {
    ElementsCount(s);
    var elems := set y | y in s;
    FullSet(elems, n);
    assert x in elems;
  }

  /** Fewer than n elements miss some number below n. */
  lemma Misses(s: set<nat>, n: nat)
    requires |s| < n
    ensures exists x: nat :: x < n && x !in s
  {
    if forall x: nat | x < n :: x in s {
      SubsetCount(UpTo(n), s);
    }
  }

  /** Different numbers below n leave none out exactly when there are n of them. */
  lemma AllOrSome(s: seq<nat>, n: nat)
    requires NoRepeat(s) && forall x | x in s :: x < n
    ensures (forall x: nat | x < n :: x in s) <==> |s| == n
  {
    ElementsCount(s);
    var elems := set x | x in s;
    SubsetCount(elems, UpTo(n));
    if |s| == n {
      assert forall k: nat | k < |s| :: s[k] in s;
      forall x: nat | x < n ensures x in s {
        CoversAll(s, n, x);
      }
    } else {
      Misses(elems, n);
      var x: nat :| x < n && x !in elems;
      assert x !in s;
    }
  }

  /** A one-to-one image into b is no larger than b. */
  lemma {:induction false} InjectionCount<A, B>(a: set<A>, f: A -> B, b: set<B>)
    requires forall x | x in a :: f(x) in b
    requires forall x, y | x in a && y in a && f(x) == f(y) :: x == y
    ensures |a| <= |b|
  {
    if a != {} {
      var x :| x in a;
      InjectionCount(a - {x}, f, b - {f(x)});
    }
  }
}

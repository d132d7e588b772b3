/** Facts about finite sequences that the clock's lists rely on: counting
    occurrences, prefixes one element longer, and lists without repetitions
    (the output list of a session never holds an output twice). */
module Sequences {
  /** How often `x` occurs in `s`. */
  function Count<T(==)>(x: T, s: seq<T>): (n: nat)
    ensures n <= |s|
  {
    if s == [] then 0 else (if s[0] == x then 1 else 0) + Count(x, s[1..])
  }

  /** `x` occurs in `s` exactly when it is counted. */
  lemma {:induction false} CountAbsent<T>(x: T, s: seq<T>)
    ensures Count(x, s) == 0 <==> x !in s
  {
    if s != [] {
      CountAbsent(x, s[1..]);
      assert s == [s[0]] + s[1..];
    }
  }

  /** Counting distributes over concatenation. */
  lemma {:induction false} CountAppend<T>(x: T, a: seq<T>, b: seq<T>)
    ensures Count(x, a + b) == Count(x, a) + Count(x, b)
  {
    if a == [] {
      assert a + b == b;
    } else {
      assert (a + b)[1..] == a[1..] + b;
      CountAppend(x, a[1..], b);
    }
  }

  /** A prefix one longer is the shorter prefix and one more element. */
  lemma TakeSnoc<T>(xs: seq<T>, n: nat)
    requires 0 < n <= |xs|
    ensures xs[..n] == xs[..n - 1] + [xs[n - 1]]
  {
  }

  /** Membership in a prefix one longer. */
  lemma PrefixMember<T>(xs: seq<T>, n: nat, x: T)
    requires 0 < n <= |xs|
    ensures x in xs[..n] <==> x in xs[..n - 1] || x == xs[n - 1]
  {
    assert xs[..n] == xs[..n - 1] + [xs[n - 1]];
  }

  /** No element occurs twice. */
  predicate Distinct<T(==)>(xs: seq<T>)
  {
    forall j, k :: 0 <= j < k < |xs| ==> xs[j] != xs[k]
  }

  /** In a list without repetitions no element occurs before its own index. */
  lemma DistinctNotBefore<T>(xs: seq<T>, i: nat)
    requires i < |xs| && Distinct(xs)
    ensures xs[i] !in xs[..i]
  {
  }

  /** In a list without repetitions a prefix holds each element at most once. */
  lemma {:induction false} CountDistinctPrefix<T>(xs: seq<T>, n: nat, x: T)
    requires Distinct(xs) && n <= |xs|
    ensures Count(x, xs[..n]) == if x in xs[..n] then 1 else 0
  {
    if n > 0 {
      CountDistinctPrefix(xs, n - 1, x);
      TakeSnoc(xs, n);
      CountAppend(x, xs[..n - 1], [xs[n - 1]]);
      PrefixMember(xs, n, x);
      DistinctNotBefore(xs, n - 1);
    }
  }

  /** The prefix of length `n` of a non-empty list is its head and the
      prefix of length `n - 1` of its tail. */
  lemma TakeTail<T>(xs: seq<T>, n: nat)
    requires 0 < n <= |xs|
    ensures xs[..n] == [xs[0]] + xs[1..][..n - 1]
    ensures xs[..n][1..] == xs[1..][..n - 1]
  {
    assert xs[..n][1..] == xs[1..][..n - 1];
  }

  /** Concatenation is associative. */
  lemma AppendAssoc<T>(a: seq<T>, b: seq<T>, c: seq<T>)
    ensures (a + b) + c == a + (b + c)
  {
  }
}

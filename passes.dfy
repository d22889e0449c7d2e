/** A run of replacement passes that each put the same text `r` in place of
    one pattern of a list, as the redaction loop of `_replace_placeholders_in`
    does, and why the order of the list does not matter when no two patterns
    can overlap and `r` cannot bring a pattern back. */
module Passes {
  import opened Strings

  ghost predicate NonEmpty(patterns: seq<string>)
  {
    forall i :: 0 <= i < |patterns| ==> patterns[i] != []
  }

  /** The first `n` passes, in the listed order. */
  function ListedPasses(s: string, patterns: seq<string>, r: string, n: nat): string
    requires NonEmpty(patterns) && n <= |patterns|
  {
    if n == 0 then s
    else Replace(ListedPasses(s, patterns, r, n - 1), patterns[n - 1], r)
  }

  /** Patterns whose passes can be swapped: none is empty, none shares a
      character with the replacement `r`, and no two of them can overlap. */
  ghost predicate Interchangeable(patterns: seq<string>, r: string)
  {
    r != [] && NonEmpty(patterns)
    && (forall i :: 0 <= i < |patterns| ==> SharesNoChar(r, patterns[i]))
    && (forall i, j :: 0 <= i < j < |patterns| ==> Apart(patterns[i], patterns[j]))
  }

  /** Any two of the passes commute, on any text. */
  lemma AnyTwoPassesCommute(s: string, patterns: seq<string>, r: string, i: nat, j: nat)
    requires Interchangeable(patterns, r)
    requires i < |patterns| && j < |patterns| && i != j
    ensures Replace(Replace(s, patterns[i], r), patterns[j], r)
      == Replace(Replace(s, patterns[j], r), patterns[i], r)
  {
    if i < j {
      ReplaceCommute(s, patterns[i], patterns[j], r);
    } else {
      ReplaceCommute(s, patterns[j], patterns[i], r);
    }
  }

  /** `[0, 1, ..., n - 1]`. */
  function Range(n: nat): (r: seq<nat>)
    ensures |r| == n && forall k :: 0 <= k < n ==> r[k] == k
  {
    seq(n, k requires 0 <= k < n => k as nat)
  }

  /** Every entry of `order` is below `m`. */
  ghost predicate Indices(order: seq<nat>, m: nat)
  {
    forall k :: 0 <= k < |order| ==> order[k] < m
  }

  /** The passes run in the order `order` gives, by index into `patterns`. */
  function PassesInOrder(s: string, patterns: seq<string>, r: string, order: seq<nat>): string
    requires NonEmpty(patterns) && Indices(order, |patterns|)
    decreases |order|
  {
    if order == [] then s
    else
      var n := |order| - 1;
      Replace(PassesInOrder(s, patterns, r, order[..n]), patterns[order[n]], r)
  }

  lemma IndicesConcat(a: seq<nat>, b: seq<nat>, m: nat)
    requires Indices(a, m) && Indices(b, m)
    ensures Indices(a + b, m)
  {
  }

  /** One more pass at the end of an order. */
  lemma PassesInOrderAppend(s: string, patterns: seq<string>, r: string, order: seq<nat>, x: nat)
    requires NonEmpty(patterns) && Indices(order, |patterns|) && x < |patterns|
    ensures Indices(order + [x], |patterns|)
    ensures PassesInOrder(s, patterns, r, order + [x]) == Replace(PassesInOrder(s, patterns, r, order), patterns[x], r)
  {
    assert (order + [x])[..|order|] == order;
  }

  /** A pass that no later pass repeats can be moved to the end. */
  lemma {:induction false} PassMovesLast(s: string, patterns: seq<string>, r: string, a: seq<nat>, t: nat, b: seq<nat>)
    requires Interchangeable(patterns, r)
    requires Indices(a, |patterns|) && t < |patterns| && Indices(b, |patterns|) && t !in b
    ensures Indices(a + [t] + b, |patterns|) && Indices(a + b, |patterns|)
    ensures PassesInOrder(s, patterns, r, a + [t] + b) == Replace(PassesInOrder(s, patterns, r, a + b), patterns[t], r)
    decreases |b|
  {
    var m := |patterns|;
    IndicesConcat(a, [t], m);
    IndicesConcat(a + [t], b, m);
    IndicesConcat(a, b, m);
    if b == [] {
      assert a + [t] + b == a + [t] && a + b == a;
      PassesInOrderAppend(s, patterns, r, a, t);
    } else {
      var front, x := b[..|b| - 1], b[|b| - 1];
      assert b == front + [x];
      assert t !in front && t != x;
      PassMovesLast(s, patterns, r, a, t, front);
      assert a + [t] + b == (a + [t] + front) + [x];
      assert a + b == (a + front) + [x];
      PassesInOrderAppend(s, patterns, r, a + [t] + front, x);
      PassesInOrderAppend(s, patterns, r, a + front, x);
      AnyTwoPassesCommute(PassesInOrder(s, patterns, r, a + front), patterns, r, t, x);
    }
  }

  lemma RangeBelow(n: nat)
    ensures forall x :: x in multiset(Range(n)) ==> x < n
  {
  }

  lemma RangeLast(n: nat)
    requires 0 < n
    ensures multiset(Range(n)) == multiset(Range(n - 1)) + multiset{(n - 1) as nat}
  {
    assert Range(n) == Range(n - 1) + [n - 1];
  }

  /** Taking the same entry out of two orders with the same entries. */
  lemma RemoveOne(a: seq<nat>, t: nat, b: seq<nat>, r: seq<nat>)
    requires multiset(a + [t] + b) == multiset(r + [t])
    ensures multiset(a + b) == multiset(r)
  {
    assert multiset(a + [t] + b) == multiset(a + b) + multiset{t};
    assert multiset(r + [t]) == multiset(r) + multiset{t};
    forall x ensures multiset(a + b)[x] == multiset(r)[x] {
      assert (multiset(a + b) + multiset{t})[x] == (multiset(r) + multiset{t})[x];
    }
  }

  lemma NotInPart(a: seq<nat>, b: seq<nat>, t: nat)
    requires t !in multiset(a + b)
    ensures t !in b
  {
    assert multiset(a + b) == multiset(a) + multiset(b);
  }

  /** An order of the first `n` indices has no entry of `n` or more. */
  lemma OrderIndices(order: seq<nat>, n: nat)
    requires multiset(order) == multiset(Range(n))
    ensures Indices(order, n)
  {
    RangeBelow(n);
    forall k | 0 <= k < |order| ensures order[k] < n {
      assert order[k] in multiset(order);
    }
  }

  lemma IndicesWiden(order: seq<nat>, n: nat, m: nat)
    requires Indices(order, n) && n <= m
    ensures Indices(order, m)
  {
  }

  lemma SplitAround(order: seq<nat>, k: nat)
    requires k < |order|
    ensures order == order[..k] + [order[k]] + order[k + 1..]
  {
  }

  lemma SomeIndexOf(order: seq<nat>, t: nat) returns (k: nat)
    requires t in multiset(order)
    ensures k < |order| && order[k] == t
  {
    assert t in order;
    k :| 0 <= k < |order| && order[k] == t;
  }

  /** Where the last index `n - 1` sits in an order of the first `n` indices,
      and what the order is without it. */
  lemma LastPassIn(order: seq<nat>, n: nat) returns (k: nat)
    requires 0 < n && multiset(order) == multiset(Range(n))
    ensures k < |order| && order[k] == n - 1
    ensures order == order[..k] + [n - 1] + order[k + 1..]
    ensures multiset(order[..k] + order[k + 1..]) == multiset(Range(n - 1))
    ensures n - 1 !in order[k + 1..]
  {
    var t := n - 1;
    RangeLast(n);
    k := SomeIndexOf(order, t);
    var a, b := order[..k], order[k + 1..];
    SplitAround(order, k);
    RemoveOne(a, t, b, Range(t));
    RangeBelow(t);
    NotInPart(a, b, t);
  }

  /** The induction step of `AnyOrderOfPasses`: the passes other than the
      last listed one, in any order, then the last listed one. */
  lemma {:induction false} LastPassMoved(s: string, patterns: seq<string>, r: string, a: seq<nat>, b: seq<nat>, n: nat)
    requires Interchangeable(patterns, r)
    requires 0 < n <= |patterns| && multiset(a + b) == multiset(Range(n - 1)) && n - 1 !in b
    ensures Indices(a + [n - 1] + b, |patterns|)
    ensures PassesInOrder(s, patterns, r, a + [n - 1] + b) == ListedPasses(s, patterns, r, n)
    decreases n, 0
  {
    AnyOrderOfPasses(s, patterns, r, a + b, n - 1);
    IndicesOfParts(a, b, |patterns|);
    PassMovesLast(s, patterns, r, a, n - 1, b);
  }

  lemma IndicesOfParts(a: seq<nat>, b: seq<nat>, m: nat)
    requires Indices(a + b, m)
    ensures Indices(a, m) && Indices(b, m)
  {
    forall k | 0 <= k < |a| ensures a[k] < m {
      assert a[k] == (a + b)[k];
    }
    forall k | 0 <= k < |b| ensures b[k] < m {
      assert b[k] == (a + b)[|a| + k];
    }
  }

  lemma NoOrderOfNothing(order: seq<nat>)
    requires multiset(order) == multiset(Range(0))
    ensures order == []
  {
    assert |order| == |multiset(order)| == 0;
  }

  /** Running the first `n` passes in any order gives the same text as
      running them in the listed order. */
  lemma {:induction false} AnyOrderOfPasses(s: string, patterns: seq<string>, r: string, order: seq<nat>, n: nat)
    requires Interchangeable(patterns, r)
    requires n <= |patterns| && multiset(order) == multiset(Range(n))
    ensures Indices(order, |patterns|)
    ensures PassesInOrder(s, patterns, r, order) == ListedPasses(s, patterns, r, n)
    decreases n, 1
  {
    OrderIndices(order, n);
    IndicesWiden(order, n, |patterns|);
    if n == 0 {
      NoOrderOfNothing(order);
    } else {
      var k := LastPassIn(order, n);
      LastPassMoved(s, patterns, r, order[..k], order[k + 1..], n);
    }
  }
}

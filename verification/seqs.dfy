/**
 * Mapping and filtering of sequences, and how they interact with
 * multisets and orderings: the bookkeeping behind the Burrows-Wheeler
 * inverse and the randomized queue's iterator.
 */
module Seqs {
  import Sorting

  /** `g` applied to every element. */
  function Map<A, B>(xs: seq<A>, g: A -> B): (r: seq<B>)
    ensures |r| == |xs| && forall i :: 0 <= i < |xs| ==> r[i] == g(xs[i])
  {
    if |xs| == 0 then [] else Map(xs[..|xs| - 1], g) + [g(xs[|xs| - 1])]
  }

  /** The test "`g` maps it to `c`". */
  function Is<A, B(==)>(g: A -> B, c: B): A -> bool {
    (x: A) => g(x) == c
  }

  /** The elements of `xs` satisfying `P`, in their order. */
  function Filter<A>(xs: seq<A>, P: A -> bool): (r: seq<A>)
    ensures |r| <= |xs|
  {
    if |xs| == 0 then [] else Filter(xs[..|xs| - 1], P) + (if P(xs[|xs| - 1]) then [xs[|xs| - 1]] else [])
  }

  lemma {:induction false} FilterCount<A>(xs: seq<A>, P: A -> bool, v: A)
    ensures multiset(Filter(xs, P))[v] == if P(v) then multiset(xs)[v] else 0
  {
    if |xs| > 0 {
      FilterCount(xs[..|xs| - 1], P, v);
      assert xs == xs[..|xs| - 1] + [xs[|xs| - 1]];
    }
  }

  lemma {:induction false} FilterAppend<A>(a: seq<A>, b: seq<A>, P: A -> bool)
    ensures Filter(a + b, P) == Filter(a, P) + Filter(b, P)
    decreases |b|
  {
    if |b| > 0 {
      assert (a + b)[..|a + b| - 1] == a + b[..|b| - 1];
      FilterAppend(a, b[..|b| - 1], P);
    } else {
      assert a + b == a;
    }
  }

  /** The element at `p`, if kept, sits in the filtered sequence after the kept elements before it. */
  lemma FilterAt<A>(xs: seq<A>, P: A -> bool, p: nat)
    requires p < |xs| && P(xs[p])
    ensures |Filter(xs[..p], P)| < |Filter(xs, P)|
    ensures Filter(xs, P)[|Filter(xs[..p], P)|] == xs[p]
  {
    assert xs[..p + 1][..p] == xs[..p];
    assert Filter(xs[..p + 1], P) == Filter(xs[..p], P) + [xs[p]];
    assert xs == xs[..p + 1] + xs[p + 1..];
    FilterAppend(xs[..p + 1], xs[p + 1..], P);
  }

  /** Every element of the filtered sequence is an element of `xs` that satisfies `P`. */
  lemma {:induction false} FilterMembers<A>(xs: seq<A>, P: A -> bool)
    ensures forall k :: 0 <= k < |Filter(xs, P)| ==> Filter(xs, P)[k] in xs && P(Filter(xs, P)[k])
  {
    if |xs| > 0 {
      FilterMembers(xs[..|xs| - 1], P);
    }
  }

  lemma {:induction false} FilterSorted<A(!new)>(xs: seq<A>, P: A -> bool, leq: (A, A) -> bool)
    requires Sorting.SortedBy(xs, leq)
    ensures Sorting.SortedBy(Filter(xs, P), leq)
  {
    if |xs| > 0 {
      var init := xs[..|xs| - 1];
      var last := xs[|xs| - 1];
      FilterSorted(init, P, leq);
      FilterMembers(init, P);
      var r := Filter(xs, P);
      forall i, j | 0 <= i < j < |r| ensures leq(r[i], r[j]) {
        if j >= |Filter(init, P)| {
          assert r[j] == last;
          var k :| 0 <= k < |init| && init[k] == r[i];
          assert xs[k] == r[i];
        }
      }
    }
  }

  /** How many elements pass a filter depends only on the multiset of elements. */
  lemma FilterLengthOfMultiset<A>(X: seq<A>, Y: seq<A>, P: A -> bool)
    requires multiset(X) == multiset(Y)
    ensures |Filter(X, P)| == |Filter(Y, P)|
  {
    var FX := multiset(Filter(X, P));
    var FY := multiset(Filter(Y, P));
    forall v: A ensures FX[v] == FY[v] {
      FilterCount(X, P, v);
      FilterCount(Y, P, v);
    }
    SameCounts(Filter(X, P), Filter(Y, P));
  }

  /** Sequences with the same count of every value have the same multiset. */
  lemma SameCounts<A>(X: seq<A>, Y: seq<A>)
    requires forall v: A :: multiset(X)[v] == multiset(Y)[v]
    ensures multiset(X) == multiset(Y)
  {
  }

  /** Filtering rearranged sequences gives rearranged results. */
  lemma FilterMultiset<A>(X: seq<A>, Y: seq<A>, P: A -> bool)
    requires multiset(X) == multiset(Y)
    ensures multiset(Filter(X, P)) == multiset(Filter(Y, P))
  {
    forall v: A ensures multiset(Filter(X, P))[v] == multiset(Filter(Y, P))[v] {
      FilterCount(X, P, v);
      FilterCount(Y, P, v);
    }
    SameCounts(Filter(X, P), Filter(Y, P));
  }

  /** Filtering and then mapping is mapping and then filtering by the matching test. */
  lemma {:induction false} MapFilter<A, B>(xs: seq<A>, P: A -> bool, h: A -> B, Q: B -> bool)
    requires forall x :: x in xs ==> P(x) == Q(h(x))
    ensures Map(Filter(xs, P), h) == Filter(Map(xs, h), Q)
  {
    if |xs| > 0 {
      var init := xs[..|xs| - 1];
      MapFilter(init, P, h, Q);
      assert Map(xs, h)[..|xs| - 1] == Map(init, h);
      var tail := if P(xs[|xs| - 1]) then [xs[|xs| - 1]] else [];
      MapAppend(Filter(init, P), tail, h);
    }
  }

  lemma MapAppend<A, B>(a: seq<A>, b: seq<A>, h: A -> B)
    ensures Map(a + b, h) == Map(a, h) + Map(b, h)
  {
  }

  /** Rearranging a sequence and then mapping it gives a rearrangement of the mapped sequence. */
  lemma MapMultiset<A, B>(X: seq<A>, Y: seq<A>, g: A -> B)
    requires multiset(X) == multiset(Y)
    ensures multiset(Map(X, g)) == multiset(Map(Y, g))
  {
    var MX := multiset(Map(X, g));
    var MY := multiset(Map(Y, g));
    forall b: B ensures MX[b] == MY[b] {
      CountIsFilterLength(X, g, b);
      CountIsFilterLength(Y, g, b);
      FilterLengthOfMultiset(X, Y, Is(g, b));
    }
    SameCounts(Map(X, g), Map(Y, g));
  }

  /** How often `c` occurs among the images is how many elements map to `c`. */
  lemma {:induction false} CountIsFilterLength<A, B>(xs: seq<A>, g: A -> B, c: B)
    ensures multiset(Map(xs, g))[c] == |Filter(xs, Is(g, c))|
  {
    if |xs| > 0 {
      CountIsFilterLength(xs[..|xs| - 1], g, c);
      assert Map(xs, g) == Map(xs[..|xs| - 1], g) + [g(xs[|xs| - 1])];
    }
  }

  // ---------------------------------------------------------------------------
  // Permutations of 0..n-1

  /** `0, 1, ..., n-1`. */
  function Identity(n: nat): (r: seq<nat>)
    ensures |r| == n && forall i :: 0 <= i < n ==> r[i] == i
  {
    seq(n, i => i)
  }

  /** `index` lists each of `0..n-1` exactly once. */
  predicate IsPermutation(index: seq<nat>, n: nat) {
    multiset(index) == multiset(Identity(n))
  }

  lemma {:induction false} IdentityCount(n: nat, v: nat)
    ensures multiset(Identity(n))[v] == if v < n then 1 else 0
  {
    if n > 0 {
      assert Identity(n) == Identity(n - 1) + [n - 1];
      IdentityCount(n - 1, v);
    }
  }

  /** A permutation of `0..n-1` has its entries below `n`, once each, and every value somewhere. */
  lemma PermutationFacts(index: seq<nat>, n: nat)
    requires IsPermutation(index, n)
    ensures |index| == n
    ensures forall k :: 0 <= k < |index| ==> index[k] < n
    ensures forall v: nat :: multiset(index)[v] == if v < n then 1 else 0
    ensures forall i, j :: 0 <= i < j < |index| ==> index[i] != index[j]
    ensures forall v: nat :: v < n ==> v in index
  {
    assert |index| == |multiset(index)| == n;
    forall v: nat ensures multiset(index)[v] == if v < n then 1 else 0 {
      IdentityCount(n, v);
    }
    forall k | 0 <= k < |index| ensures index[k] < n {
      assert index[k] in multiset(index);
    }
    forall i, j | 0 <= i < j < |index| ensures index[i] != index[j] {
      var v := index[i];
      assert index == index[..i] + [v] + index[i + 1..];
      assert multiset(index)[v] == multiset(index[..i])[v] + 1 + multiset(index[i + 1..])[v];
      assert index[i + 1..][j - i - 1] == index[j];
      assert index[j] in multiset(index[i + 1..]);
    }
    forall v: nat | v < n ensures v in index {
      assert v in multiset(index);
    }
  }
}

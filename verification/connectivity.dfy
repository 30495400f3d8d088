/**
 * Dynamic connectivity as the percolation model uses it. The union-find
 * structure itself (`WeightedQuickUnionUF`) is not part of this model; what
 * its `connected` answers is: are two nodes joined by the equivalence
 * relation generated by the `union` calls made so far? `Connected` builds
 * that relation one union at a time, and the lemmas below show it is an
 * equivalence, contains every recorded union, and is the least such relation.
 */
module Connectivity {

  /** A `union(a, b)` call, in the order made. */
  type Union = (int, int)

  /**
   * `p` and `q` are connected once the unions `us` are made: with no unions,
   * only each node with itself; a new union `(a, b)` also joins everything
   * connected to `a` with everything connected to `b`.
   */
  function Connected(us: seq<Union>, p: int, q: int): bool
    decreases |us|
  {
    if us == [] then p == q
    else
      var before := us[..|us| - 1];
      var (a, b) := us[|us| - 1];
      || Connected(before, p, q)
      || (Connected(before, p, a) && Connected(before, b, q))
      || (Connected(before, p, b) && Connected(before, a, q))
  }

  lemma {:induction false} ConnectedReflexive(us: seq<Union>, p: int)
    ensures Connected(us, p, p)
    decreases |us|
  {
    if us != [] {
      ConnectedReflexive(us[..|us| - 1], p);
    }
  }

  lemma {:induction false} ConnectedSymmetric(us: seq<Union>, p: int, q: int)
    requires Connected(us, p, q)
    ensures Connected(us, q, p)
    decreases |us|
  {
    if us != [] {
      var before := us[..|us| - 1];
      var (a, b) := us[|us| - 1];
      if Connected(before, p, q) {
        ConnectedSymmetric(before, p, q);
      } else if Connected(before, p, a) && Connected(before, b, q) {
        ConnectedSymmetric(before, p, a);
        ConnectedSymmetric(before, b, q);
      } else {
        ConnectedSymmetric(before, p, b);
        ConnectedSymmetric(before, a, q);
      }
    }
  }

  lemma {:induction false} ConnectedTransitive(us: seq<Union>, p: int, q: int, r: int)
    requires Connected(us, p, q) && Connected(us, q, r)
    ensures Connected(us, p, r)
    decreases |us|
  {
    if us != [] {
      var before := us[..|us| - 1];
      var (a, b) := us[|us| - 1];
      forall x, y, z | Connected(before, x, y) && Connected(before, y, z)
        ensures Connected(before, x, z)
      {
        ConnectedTransitive(before, x, y, z);
      }
      forall x, y | Connected(before, x, y) ensures Connected(before, y, x) {
        ConnectedSymmetric(before, x, y);
      }
      ConnectedReflexive(before, a);
      ConnectedReflexive(before, b);
    }
  }

  /** More unions never disconnect anything. */
  lemma {:induction false} ConnectedGrows(us: seq<Union>, more: seq<Union>, p: int, q: int)
    requires Connected(us, p, q)
    ensures Connected(us + more, p, q)
    decreases |more|
  {
    if more != [] {
      var all := us + more;
      assert all[..|all| - 1] == us + more[..|more| - 1];
      ConnectedGrows(us, more[..|more| - 1], p, q);
      assert Connected(all[..|all| - 1], p, q);
    } else {
      assert us + more == us;
    }
  }

  /** Every recorded union connects its two nodes. */
  lemma UnionConnects(us: seq<Union>, i: nat)
    requires i < |us|
    ensures Connected(us, us[i].0, us[i].1)
  {
    var before := us[..i + 1][..i];
    ConnectedReflexive(before, us[i].0);
    ConnectedReflexive(before, us[i].1);
    assert Connected(us[..i + 1], us[i].0, us[i].1);
    ConnectedGrows(us[..i + 1], us[i + 1..], us[i].0, us[i].1);
    assert us[..i + 1] + us[i + 1..] == us;
  }

  /** A recorded union connects its nodes both ways round. */
  lemma MemberConnects(us: seq<Union>, a: int, b: int)
    requires (a, b) in us
    ensures Connected(us, a, b) && Connected(us, b, a)
  {
    var i :| 0 <= i < |us| && us[i] == (a, b);
    UnionConnects(us, i);
    ConnectedSymmetric(us, a, b);
  }

  /** `R` relates every node to itself, both ways round, and transitively. */
  ghost predicate Equivalence(R: (int, int) -> bool) {
    && (forall x :: R(x, x))
    && (forall x, y :: R(x, y) ==> R(y, x))
    && (forall x, y, z :: R(x, y) && R(y, z) ==> R(x, z))
  }

  /** `Connected` is the least equivalence that joins every recorded union. */
  lemma {:induction false} ConnectedIsLeast(us: seq<Union>, R: (int, int) -> bool, p: int, q: int)
    requires Equivalence(R)
    requires forall i :: 0 <= i < |us| ==> R(us[i].0, us[i].1)
    requires Connected(us, p, q)
    ensures R(p, q)
    decreases |us|
  {
    if us != [] {
      var before := us[..|us| - 1];
      var (a, b) := us[|us| - 1];
      assert R(a, b) && R(b, a);
      forall x, y | Connected(before, x, y) ensures R(x, y) {
        ConnectedIsLeast(before, R, x, y);
      }
    }
  }

  /** `Connected` is itself an equivalence, so it is the equivalence the unions generate. */
  lemma ConnectedIsEquivalence(us: seq<Union>)
    ensures Equivalence((x, y) => Connected(us, x, y))
    ensures forall i :: 0 <= i < |us| ==> Connected(us, us[i].0, us[i].1)
  {
    forall x ensures Connected(us, x, x) {
      ConnectedReflexive(us, x);
    }
    forall x, y | Connected(us, x, y) ensures Connected(us, y, x) {
      ConnectedSymmetric(us, x, y);
    }
    forall x, y, z | Connected(us, x, y) && Connected(us, y, z) ensures Connected(us, x, z) {
      ConnectedTransitive(us, x, y, z);
    }
    forall i | 0 <= i < |us| ensures Connected(us, us[i].0, us[i].1) {
      UnionConnects(us, i);
    }
  }

  /** A node that no union mentions is connected to nothing but itself. */
  predicate Untouched(us: seq<Union>, k: int) {
    forall i :: 0 <= i < |us| ==> us[i].0 != k && us[i].1 != k
  }

  lemma {:induction false} UntouchedIsAlone(us: seq<Union>, p: int, k: int)
    requires Untouched(us, k) && p != k
    ensures !Connected(us, p, k) && !Connected(us, k, p)
    decreases |us|
  {
    if us != [] {
      var before := us[..|us| - 1];
      assert Untouched(before, k);
      UntouchedIsAlone(before, p, k);
      var (a, b) := us[|us| - 1];
      if a != p {
        UntouchedIsAlone(before, a, k);
      }
      if b != p {
        UntouchedIsAlone(before, b, k);
      }
    }
  }
}

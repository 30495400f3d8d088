/**
 * The circular suffix array of a string: the starting positions of its
 * rotations, listed in the order the rotations sort under
 * `String.compareTo`. The array is left unset (`null`) for the empty string.
 */
module CircularSuffixArray {
  import opened Wrappers
  import Sorting
  import Lex
  import Grid
  import opened Seqs

  /** `s.substring(i) + s.substring(0, i)`: the rotation of `s` starting at `i`. */
  function Rotation(s: string, i: nat): (r: string)
    ensures |r| == |s|
  {
    if i <= |s| then s[i..] + s[..i] else s
  }

  lemma RotationAt(s: string, i: nat, k: nat)
    requires i < |s| && k < |s|
    ensures Rotation(s, i)[k] == s[(i + k) % |s|]
  {
    Grid.ModBelowTwice(i + k, |s|);
  }

  /** Rotations compared as their strings: `IndexedString.compareTo`. */
  function RotationLeq(s: string): (nat, nat) -> bool {
    (i: nat, j: nat) => Lex.Leq(Rotation(s, i), Rotation(s, j))
  }

  lemma RotationLeqIsPreorder(s: string)
    ensures Sorting.TotalPreorder(RotationLeq(s))
  {
    Lex.LeqIsTotalOrder();
    var leq := Lex.Order();
    forall i: nat, j: nat ensures RotationLeq(s)(i, j) || RotationLeq(s)(j, i) {
      assert leq(Rotation(s, i), Rotation(s, j)) || leq(Rotation(s, j), Rotation(s, i));
    }
    forall i: nat, j: nat, k: nat | RotationLeq(s)(i, j) && RotationLeq(s)(j, k)
      ensures RotationLeq(s)(i, k)
    {
      Lex.LeqTransitive(Rotation(s, i), Rotation(s, j), Rotation(s, k));
    }
  }

  /** The positions `0..n-1` arranged so that their rotations are in order. */
  predicate IsSuffixArray(s: string, index: seq<nat>) {
    && IsPermutation(index, |s|)
    && Sorting.SortedBy(index, RotationLeq(s))
  }

  /** `sortSuffixes`: every rotation paired with its start, sorted, and the starts read off. */
  function SortSuffixes(s: string): (index: seq<nat>)
    ensures IsSuffixArray(s, index)
    ensures |index| == |s|
    ensures forall i, j :: 0 <= i < j < |index| ==> Lex.Leq(Rotation(s, index[i]), Rotation(s, index[j]))
  {
    RotationLeqIsPreorder(s);
    var index := Sorting.SortBy(Identity(|s|), RotationLeq(s));
    assert |index| == |multiset(index)| == |s|;
    index
  }

  /** The string and, unless it is empty, its sorted rotation starts (`None` is Java's `null`). */
  datatype SuffixArray = SuffixArray(s: string, index: Option<seq<nat>>)

  /** `length()`: the length of the string, which is also the number of rotations the array lists. */
  function Length(a: SuffixArray): (n: nat)
    ensures a.index.Some? && IsSuffixArray(a.s, a.index.value) ==> n == |a.index.value|
    ensures a.index.Some? && IsSuffixArray(a.s, a.index.value) ==>
              forall i :: 0 <= i < |a.index.value| ==> a.index.value[i] < n
  {
    if a.index.Some? then
      SuffixArrayShape(a.s, a.index.value);
      |a.s|
    else
      |a.s|
  }

  /** A suffix array lists each start below the string's length once. */
  lemma SuffixArrayShape(s: string, index: seq<nat>)
    ensures IsSuffixArray(s, index) ==> |index| == |s| && forall i :: 0 <= i < |index| ==> index[i] < |s|
  {
    if IsSuffixArray(s, index) {
      PermutationFacts(index, |s|);
    }
  }

  /** The constructor: a `null` string is an illegal argument, and only a non-empty one is sorted. */
  function New(s: Option<string>): (r: Result<SuffixArray>)
    ensures r.Err? <==> s.None?
    ensures r.Err? ==> r.error == IllegalArgument
    ensures r.Ok? ==> r.value.s == s.value && Length(r.value) == |s.value|
    ensures r.Ok? ==> (r.value.index.Some? <==> |s.value| > 0)
    ensures r.Ok? && r.value.index.Some? ==> IsSuffixArray(s.value, r.value.index.value)
  {
    match s
    case None => Err(IllegalArgument)
    case Some(str) =>
      if |str| == 0 then Ok(SuffixArray(str, None)) else Ok(SuffixArray(str, Some(SortSuffixes(str))))
  }

  /** `index(i)`: the start of the `i`-th smallest rotation; out of range, or no array, is an illegal argument. */
  function Index(a: SuffixArray, i: int): (r: Result<nat>)
    ensures r.Err? <==> a.index.None? || i < 0 || i >= |a.index.value|
    ensures r.Err? ==> r.error == IllegalArgument
    ensures r.Ok? ==> r.value == a.index.value[i]
  {
    if i < 0 || a.index.None? || i >= |a.index.value| then Err(IllegalArgument)
    else Ok(a.index.value[i])
  }

  /** Built from a string, `index(i)` answers exactly for `0 <= i < length()`: never for the empty string. */
  lemma IndexInRange(s: string, i: int)
    ensures New(Some(s)).Ok?
    ensures Index(New(Some(s)).value, i).Ok? <==> 0 <= i < |s|
    ensures Index(New(Some(s)).value, i).Ok? ==> Index(New(Some(s)).value, i).value < |s|
  {
    if |s| > 0 && 0 <= i < |s| {
      PermutationFacts(SortSuffixes(s), |s|);
    }
  }
}

/**
 * The Burrows-Wheeler transform and its inverse.
 *
 * The transform sorts the rotations of the message and keeps their last
 * characters, together with the row `first` at which the message itself
 * ended up. The inverse sorts the transformed text to recover the first
 * column, links each row to the row of the next rotation (`next`), and
 * follows those links from `first`.
 */
module BurrowsWheeler {
  import opened Wrappers
  import Sorting
  import Lex
  import CSA = CircularSuffixArray
  import Grid
  import opened Seqs

  // ---------------------------------------------------------------------------
  // Rotations, read off the message

  /**
   * `(a + 1) % n`: the start of the next rotation. Written by cases, taking
   * `n` off until `a` is a position; `SuccPredAreMod` shows it is the remainder.
   */
  function Succ(n: nat, a: nat): (r: nat)
    requires n > 0
    ensures r < n
    decreases a
  {
    if a >= n then Succ(n, a - n) else if a + 1 == n then 0 else a + 1
  }

  /** `(n - 1 + a) % n`: the position of the last character of the rotation at `a`. */
  function Pred(n: nat, a: nat): (r: nat)
    requires n > 0
    ensures r < n
    decreases a
  {
    if a >= n then Pred(n, a - n) else if a == 0 then n - 1 else a - 1
  }

  /** Both steps are the source's remainders, for every `a`. */
  lemma {:induction false} SuccPredAreMod(n: nat, a: nat)
    requires n > 0
    ensures Succ(n, a) == (a + 1) % n
    ensures Pred(n, a) == (n - 1 + a) % n
    decreases a
  {
    if a >= n {
      SuccPredAreMod(n, a - n);
      ModLessN(a + 1, n);
      ModLessN(n - 1 + a, n);
    } else {
      Grid.ModBelowTwice(a + 1, n);
      Grid.ModBelowTwice(n - 1 + a, n);
    }
  }

  /** Taking `n` off does not change a remainder by `n`. */
  lemma ModLessN(x: int, n: int)
    requires n > 0 && x >= n
    ensures x % n == (x - n) % n
  {
    Grid.DivModUnique(x, n, (x - n) / n + 1, (x - n) % n);
  }

  function FirstChar(s: string, a: nat): char {
    if a < |s| then s[a] else '\0'
  }

  /** `message.charAt((length - 1 + origIndex) % length)`. */
  function LastChar(s: string, a: nat): char {
    if |s| > 0 then s[Pred(|s|, a)] else '\0'
  }

  function FirstColumn(s: string): nat -> char {
    (a: nat) => FirstChar(s, a)
  }

  function LastColumn(s: string): nat -> char {
    (a: nat) => LastChar(s, a)
  }

  lemma SuccPred(n: nat, a: nat, v: nat)
    requires n > 0 && a < n && v < n
    ensures Succ(n, a) < n && Pred(n, v) < n
    ensures Succ(n, a) == v <==> a == Pred(n, v)
  {
  }

  lemma RotationEnds(s: string, a: nat)
    requires a < |s|
    ensures CSA.Rotation(s, a)[0] == FirstChar(s, a)
    ensures CSA.Rotation(s, a)[|s| - 1] == LastChar(s, a)
  {
    CSA.RotationAt(s, a, 0);
    CSA.RotationAt(s, a, |s| - 1);
    Grid.ModBelowTwice(a, |s|);
    SuccPredAreMod(|s|, a);
  }

  /** The next rotation moves the first character to the end. */
  lemma RotationSucc(s: string, a: nat)
    requires a < |s|
    ensures CSA.Rotation(s, Succ(|s|, a)) == CSA.Rotation(s, a)[1..] + [s[a]]
  {
    var n := |s|;
    var b := Succ(n, a);
    assert b == if a + 1 < n then a + 1 else 0;
    forall k | 0 <= k < n
      ensures CSA.Rotation(s, b)[k] == (CSA.Rotation(s, a)[1..] + [s[a]])[k]
    {
      RotationStepAt(s, a, b, k);
    }
  }

  /** Character `k` of the rotation after the one at `a`. */
  lemma RotationStepAt(s: string, a: nat, b: nat, k: nat)
    requires a < |s| && k < |s|
    requires b == if a + 1 < |s| then a + 1 else 0
    ensures CSA.Rotation(s, b)[k] == if k < |s| - 1 then CSA.Rotation(s, a)[k + 1] else s[a]
  {
    var n := |s|;
    CSA.RotationAt(s, b, k);
    if k < n - 1 {
      CSA.RotationAt(s, a, k + 1);
      if a + 1 < n {
        Grid.ModBelowTwice(a + 1 + k, n);
      } else {
        Grid.ModBelowTwice(k, n);
        Grid.ModBelowTwice(a + k + 1, n);
      }
    } else {
      Grid.ModBelowTwice(b + k, n);
      Grid.ModBelowTwice(a, n);
    }
  }

  // ---------------------------------------------------------------------------
  // The transform

  /** The `first` loop: the last row whose rotation starts at `v`, or -1. */
  function LastIndexOf(index: seq<nat>, v: nat): (r: int)
    ensures -1 <= r < |index|
    ensures r >= 0 ==> index[r] == v && forall k :: r < k < |index| ==> index[k] != v
    ensures r == -1 <==> v !in index
  {
    if |index| == 0 then -1
    else if index[|index| - 1] == v then |index| - 1
    else LastIndexOf(index[..|index| - 1], v)
  }

  /** The suffix array's index, or nothing for the empty message (whose loop never asks for one). */
  function Rows(msg: string): (index: seq<nat>)
    ensures CSA.IsSuffixArray(msg, index) && |index| == |msg|
  {
    var a := CSA.New(Some(msg)).value;
    if a.index.Some? then a.index.value else []
  }

  /** `_transform`: the row of the message among its sorted rotations, and the last column. */
  datatype Transformed = Transformed(first: int, last: string)

  function Transform(msg: string): (r: Transformed)
    ensures |r.last| == |msg|
    ensures r.first == -1 <==> msg == []
    ensures msg != [] ==> 0 <= r.first < |msg| && Rows(msg)[r.first] == 0
  {
    var index := Rows(msg);
    PermutationFacts(index, |msg|);
    assert msg != [] ==> 0 in index;
    Transformed(LastIndexOf(index, 0), Map(index, LastColumn(msg)))
  }

  /** Read off the rotations in their original order, the columns are the message and the message turned right by one. */
  lemma ColumnsInOrder(msg: string)
    requires |msg| > 0
    ensures Map(Identity(|msg|), FirstColumn(msg)) == msg
    ensures Map(Identity(|msg|), LastColumn(msg)) == [msg[|msg| - 1]] + msg[..|msg| - 1]
  {
    var n := |msg|;
    var lasts := Map(Identity(n), LastColumn(msg));
    forall i | 0 <= i < n ensures lasts[i] == ([msg[n - 1]] + msg[..n - 1])[i] {
      Grid.ModBelowTwice(n - 1 + i, n);
    }
  }

  /** Row `i` of the last column is the last character of the `i`-th sorted rotation. */
  lemma TransformLastColumn(msg: string)
    ensures forall i :: 0 <= i < |msg| ==> Transform(msg).last[i] == CSA.Rotation(msg, Rows(msg)[i])[|msg| - 1]
  {
    var index := Rows(msg);
    PermutationFacts(index, |msg|);
    forall i | 0 <= i < |msg| ensures LastChar(msg, index[i]) == CSA.Rotation(msg, index[i])[|msg| - 1] {
      RotationEnds(msg, index[i]);
    }
  }

  /** The last column holds the message's characters, rearranged. */
  lemma TransformPermutes(msg: string)
    ensures multiset(Transform(msg).last) == multiset(msg)
  {
    var n := |msg|;
    if n > 0 {
      var index := Rows(msg);
      LastIsMap(msg, index);
      MapMultiset(index, Identity(n), LastColumn(msg));
      ColumnsInOrder(msg);
      TurnKeepsMultiset(msg);
    }
  }

  /** The last column is each row's last character. */
  lemma LastIsMap(msg: string, index: seq<nat>)
    requires index == Rows(msg)
    ensures Transform(msg).last == Map(index, LastColumn(msg))
  {
  }

  lemma TurnKeepsMultiset(msg: string)
    requires |msg| > 0
    ensures multiset([msg[|msg| - 1]] + msg[..|msg| - 1]) == multiset(msg)
  {
    assert msg == msg[..|msg| - 1] + [msg[|msg| - 1]];
  }

  // ---------------------------------------------------------------------------
  // The inverse transform

  /** `Arrays.sort` on `char[]`: by character value. */
  function CharLeq(): (char, char) -> bool {
    (a: char, b: char) => a <= b
  }

  lemma CharLeqIsTotalOrder()
    ensures Sorting.TotalPreorder(CharLeq()) && Sorting.Antisymmetric(CharLeq())
  {
  }

  function SortChars(t: string): (s: string)
    ensures multiset(s) == multiset(t) && |s| == |t|
    ensures Sorting.SortedBy(s, CharLeq())
  {
    CharLeqIsTotalOrder();
    Sorting.SortBy(t, CharLeq())
  }

  /** The positions of `c` in `t`, in increasing order: the queue the first loop builds for `c`. */
  function Positions(t: string, c: char): (ps: seq<nat>)
    ensures forall k :: 0 <= k < |ps| ==> ps[k] < |t| && t[ps[k]] == c
    ensures forall i, j :: 0 <= i < j < |ps| ==> ps[i] < ps[j]
  {
    if |t| == 0 then []
    else
      var init := t[..|t| - 1];
      assert t == init + [t[|t| - 1]];
      Positions(init, c) + (if t[|t| - 1] == c then [|t| - 1] else [])
  }
  /** There are as many positions of `c` as occurrences of it. */
  lemma {:induction false} PositionsCount(t: string, c: char)
    ensures |Positions(t, c)| == multiset(t)[c]
  {
    if |t| > 0 {
      PositionsCount(t[..|t| - 1], c);
      assert t == t[..|t| - 1] + [t[|t| - 1]];
    }
  }


  /** Position `i` joins the end of the queue of `c`, which starts empty. */
  function Enqueue(m: map<char, seq<nat>>, c: char, i: nat): map<char, seq<nat>> {
    m[c := (if c in m then m[c] else []) + [i]]
  }

  /** One pass of the first loop: the last position of `t` joins the queue of its character. */
  lemma PositionMapStep(t: string, m: map<char, seq<nat>>)
    requires |t| > 0
    requires forall d :: d in m <==> Positions(t[..|t| - 1], d) != []
    requires forall d :: d in m ==> m[d] == Positions(t[..|t| - 1], d)
    ensures forall d :: d in Enqueue(m, t[|t| - 1], |t| - 1) <==> Positions(t, d) != []
    ensures forall d :: d in Enqueue(m, t[|t| - 1], |t| - 1) ==> Enqueue(m, t[|t| - 1], |t| - 1)[d] == Positions(t, d)
  {
    var pre, c := t[..|t| - 1], t[|t| - 1];
    var queue := if c in m then m[c] else [];
    assert queue == Positions(pre, c);
    var m' := Enqueue(m, c, |pre|);
    forall d ensures (d in m' <==> Positions(t, d) != []) && (d in m' ==> m'[d] == Positions(t, d)) {
      assert Positions(t, d) == Positions(pre, d) + (if c == d then [|pre|] else []);
    }
  }

  /** The first loop over `t`: each character seen maps to the queue of its positions. */
  function PositionMap(t: string): (m: map<char, seq<nat>>)
    ensures forall c :: c in m <==> Positions(t, c) != []
    ensures forall c :: c in m ==> m[c] == Positions(t, c)
  {
    if |t| == 0 then map[]
    else
      var m := PositionMap(t[..|t| - 1]);
      PositionMapStep(t, m);
      Enqueue(m, t[|t| - 1], |t| - 1)
  }

  /**
   * The second loop: `next[i]` is taken off the front of the queue of the
   * `i`-th sorted character. A character with no queue is a null pointer,
   * an empty queue has no such element.
   */
  function NextLoop(S: string, m: map<char, seq<nat>>): (r: Result<seq<nat>>)
    decreases |S|
  {
    if |S| == 0 then Ok([])
    else if S[0] !in m then Err(NullPointer)
    else if m[S[0]] == [] then Err(NoSuchElement)
    else
      var rest :- NextLoop(S[1..], m[S[0] := m[S[0]][1..]]);
      Ok([m[S[0]][0]] + rest)
  }

  /** How many copies of `S[i]` come before position `i`. */
  function Rank(S: string, i: nat): nat
    requires i < |S|
  {
    multiset(S[..i])[S[i]]
  }

  lemma RankBelowCount(S: string, i: nat)
    requires i < |S|
    ensures Rank(S, i) < multiset(S)[S[i]]
  {
    assert S == S[..i] + [S[i]] + S[i + 1..];
  }

  lemma RankCons(S: string, i: nat)
    requires 0 < i < |S|
    ensures S[i] == S[1..][i - 1]
    ensures Rank(S, i) == Rank(S[1..], i - 1) + (if S[0] == S[i] then 1 else 0)
  {
    assert S[..i] == [S[0]] + S[1..][..i - 1];
  }

  /** Every character of `S` has a queue at least as long as its count in `S`. */
  ghost predicate QueuesSuffice(S: string, m: map<char, seq<nat>>) {
    forall c :: c in multiset(S) ==> c in m && multiset(S)[c] <= |m[c]|
  }

  /** Entry `i` of `r` is entry `Rank(S, i)` of the queue of `S[i]`. */
  ghost predicate Dequeued(S: string, m: map<char, seq<nat>>, r: seq<nat>) {
    && |r| == |S|
    && forall i :: 0 <= i < |S| ==> S[i] in m && Rank(S, i) < |m[S[i]]| && r[i] == m[S[i]][Rank(S, i)]
  }

  lemma QueuesSufficeTail(S: string, m: map<char, seq<nat>>)
    requires |S| > 0 && QueuesSuffice(S, m)
    ensures S[0] in m && |m[S[0]]| > 0
    ensures QueuesSuffice(S[1..], m[S[0] := m[S[0]][1..]])
  {
    assert S == [S[0]] + S[1..];
    assert multiset(S) == multiset{S[0]} + multiset(S[1..]);
  }

  lemma DequeuedCons(S: string, m: map<char, seq<nat>>, rest: seq<nat>)
    requires |S| > 0 && S[0] in m && |m[S[0]]| > 0
    requires Dequeued(S[1..], m[S[0] := m[S[0]][1..]], rest)
    ensures Dequeued(S, m, [m[S[0]][0]] + rest)
  {
    var r := [m[S[0]][0]] + rest;
    forall i | 0 <= i < |S| ensures S[i] in m && Rank(S, i) < |m[S[i]]| && r[i] == m[S[i]][Rank(S, i)] {
      if i > 0 {
        RankCons(S, i);
      }
    }
  }

  /** When every queue is long enough, the loop never fails, and takes the `Rank`-th entry of each queue. */
  lemma {:induction false} NextLoopValue(S: string, m: map<char, seq<nat>>)
    requires QueuesSuffice(S, m)
    ensures NextLoop(S, m).Ok? && Dequeued(S, m, NextLoop(S, m).value)
    decreases |S|
  {
    if |S| > 0 {
      QueuesSufficeTail(S, m);
      NextLoopValue(S[1..], m[S[0] := m[S[0]][1..]]);
      DequeuedCons(S, m, NextLoop(S[1..], m[S[0] := m[S[0]][1..]]).value);
    }
  }

  /** Built from the text itself, the queues cover every character of its sorted copy. */
  lemma QueuesOfText(t: string)
    ensures QueuesSuffice(SortChars(t), PositionMap(t))
    ensures forall c :: c in PositionMap(t) ==> PositionMap(t)[c] == Positions(t, c)
  {
    var S, m := SortChars(t), PositionMap(t);
    forall c | c in multiset(S) ensures c in m && multiset(S)[c] <= |m[c]| {
      PositionsCount(t, c);
    }
  }

  /** The whole `next` table: row `i` links to the next unused position of the `i`-th sorted character. */
  function NextTable(t: string): (next: seq<nat>)
    ensures |next| == |t|
    ensures forall i :: 0 <= i < |t| ==> next[i] < |t| && t[next[i]] == SortChars(t)[i]
  {
    var S := SortChars(t);
    var m := PositionMap(t);
    QueuesOfText(t);
    NextLoopValue(S, m);
    NextLoop(S, m).value
  }

  /** `r[i] = t[p]; p = next[p]`, `k` times from row `p`. */
  function Follow(t: string, next: seq<nat>, p: nat, k: nat): (r: string)
    requires |next| == |t| && p < |t| && forall i :: 0 <= i < |next| ==> next[i] < |t|
    ensures |r| == k
    decreases k
  {
    if k == 0 then [] else [t[p]] + Follow(t, next, next[p], k - 1)
  }

  /**
   * `_inverseTransform`: sort, link, and follow the links from row `first`;
   * the last character comes from row `first` itself. A row outside the
   * text, and any row of an empty text, is an array index out of bounds.
   * The linking loop cannot fail on a text's own characters (`NextTable`).
   */
  function InverseTransform(t: string, first: int): (r: Result<string>)
    ensures r.Err? <==> !(0 <= first < |t|)
    ensures r.Err? ==> r.error == IndexOutOfBounds
    ensures r.Ok? ==> |r.value| == |t| && r.value[|t| - 1] == t[first]
  {
    var next := NextTable(t);
    if !(0 <= first < |t|) then Err(IndexOutOfBounds)
    else Ok(Follow(t, next, next[first], |t| - 1) + [t[first]])
  }

  // ---------------------------------------------------------------------------
  // Why the inverse undoes the transform

  function RotationOf(msg: string): nat -> string {
    (a: nat) => CSA.Rotation(msg, a)
  }

  /** The start of the next rotation, as a function (the identity on an empty message). */
  function SuccOf(n: nat): nat -> nat {
    (a: nat) => if n > 0 then Succ(n, a) else a
  }

  /** The positions of `c` among the images of `xs` pick out the elements that map to `c`, in order. */
  lemma {:induction false} PositionsOfMap<A>(xs: seq<A>, g: A -> char, c: char)
    ensures |Positions(Map(xs, g), c)| == |Filter(xs, Is(g, c))|
    ensures forall k :: 0 <= k < |Positions(Map(xs, g), c)| ==>
              xs[Positions(Map(xs, g), c)[k]] == Filter(xs, Is(g, c))[k]
  {
    if |xs| > 0 {
      var init := xs[..|xs| - 1];
      PositionsOfMap(init, g, c);
      var t := Map(xs, g);
      assert t[..|t| - 1] == Map(init, g);
      var ps := Positions(t, c);
      forall k | 0 <= k < |ps| ensures xs[ps[k]] == Filter(xs, Is(g, c))[k] {
        if k < |Positions(Map(init, g), c)| {
          assert xs[ps[k]] == init[ps[k]];
        }
      }
    }
  }

  /** The rows of a message in order of their first characters are sorted, and hold the same characters as the last column. */
  lemma FirstColumnIsSorted(msg: string)
    requires |msg| > 0
    ensures SortChars(Transform(msg).last) == Map(Rows(msg), FirstColumn(msg))
  {
    var n := |msg|;
    var idx := Rows(msg);
    var f := Map(idx, FirstColumn(msg));
    PermutationFacts(idx, n);
    forall i, j | 0 <= i < j < n ensures CharLeq()(f[i], f[j]) {
      assert CSA.RotationLeq(msg)(idx[i], idx[j]);
      RotationEnds(msg, idx[i]);
      RotationEnds(msg, idx[j]);
      Lex.FirstChars(CSA.Rotation(msg, idx[i]), CSA.Rotation(msg, idx[j]));
    }
    MapMultiset(idx, Identity(n), FirstColumn(msg));
    ColumnsInOrder(msg);
    TransformPermutes(msg);
    CharLeqIsTotalOrder();
    Sorting.SortedUnique(SortChars(Transform(msg).last), f, CharLeq());
  }

  /** Sorted starts have sorted rotations. */
  lemma RotationsSorted(msg: string, xs: seq<nat>)
    requires Sorting.SortedBy(xs, CSA.RotationLeq(msg))
    ensures Sorting.SortedBy(Map(xs, RotationOf(msg)), Lex.Order())
  {
    var r := Map(xs, RotationOf(msg));
    forall i, j | 0 <= i < j < |r| ensures Lex.Order()(r[i], r[j]) {
      assert CSA.RotationLeq(msg)(xs[i], xs[j]);
    }
  }

  /** Rotations that start with the same character stay in order when that character moves to the end. */
  lemma ShiftKeepsOrder(msg: string, a: nat, b: nat)
    requires a < |msg| && b < |msg| && msg[a] == msg[b]
    requires Lex.Leq(CSA.Rotation(msg, a), CSA.Rotation(msg, b))
    ensures Lex.Leq(CSA.Rotation(msg, Succ(|msg|, a)), CSA.Rotation(msg, Succ(|msg|, b)))
  {
    var c := msg[a];
    var ra, rb := CSA.Rotation(msg, a), CSA.Rotation(msg, b);
    RotationEnds(msg, a);
    RotationEnds(msg, b);
    assert ra == [c] + ra[1..] && rb == [c] + rb[1..];
    Lex.SameHead(c, ra[1..], rb[1..]);
    Lex.SameTail(ra[1..], rb[1..], c);
    RotationSucc(msg, a);
    RotationSucc(msg, b);
  }

  lemma ShiftedRotationsSorted(msg: string, xs: seq<nat>, c: char)
    requires |msg| > 0
    requires forall k :: 0 <= k < |xs| ==> xs[k] < |msg| && msg[xs[k]] == c
    requires Sorting.SortedBy(xs, CSA.RotationLeq(msg))
    ensures Sorting.SortedBy(Map(Map(xs, SuccOf(|msg|)), RotationOf(msg)), Lex.Order())
  {
    var n := |msg|;
    var r := Map(Map(xs, SuccOf(n)), RotationOf(msg));
    forall i, j | 0 <= i < j < |r| ensures Lex.Order()(r[i], r[j]) {
      assert CSA.RotationLeq(msg)(xs[i], xs[j]);
      ShiftKeepsOrder(msg, xs[i], xs[j]);
      assert r[i] == CSA.Rotation(msg, Succ(n, xs[i])) && r[j] == CSA.Rotation(msg, Succ(n, xs[j]));
    }
  }

  /** Moving every start on by one permutes the rows. */
  lemma SuccPermutesRows(msg: string)
    requires |msg| > 0
    ensures multiset(Map(Rows(msg), SuccOf(|msg|))) == multiset(Rows(msg))
  {
    SuccPermutes(Rows(msg), |msg|);
  }

  /** Moving every entry of a permutation of `0..n-1` on by one, cyclically, permutes it. */
  lemma SuccPermutes(idx: seq<nat>, n: nat)
    requires n > 0 && IsPermutation(idx, n)
    ensures multiset(Map(idx, SuccOf(n))) == multiset(idx)
  {
    var id := Identity(n);
    MapMultiset(idx, id, SuccOf(n));
    IdentityShifted(n);
    RotateKeepsMultiset(id);
  }

  /** Moving the head to the back keeps the elements. */
  lemma RotateKeepsMultiset(s: seq<nat>)
    requires |s| > 0
    ensures multiset(s[1..] + [s[0]]) == multiset(s)
  {
    assert s == [s[0]] + s[1..];
  }

  lemma IdentityShifted(n: nat)
    requires n > 0
    ensures Map(Identity(n), SuccOf(n)) == Identity(n)[1..] + [0]
  {
    var id := Identity(n);
    var shifted := Map(id, SuccOf(n));
    forall i | 0 <= i < n ensures shifted[i] == (id[1..] + [0])[i] {
      Grid.ModBelowTwice(i + 1, n);
    }
  }

  /** The starts of the rows beginning with `c`, moved on by one, are the starts of the rows ending with `c`. */
  lemma ShiftedStartsPermute(msg: string, c: char)
    requires |msg| > 0
    ensures multiset(Map(Filter(Rows(msg), Is(FirstColumn(msg), c)), SuccOf(|msg|)))
         == multiset(Filter(Rows(msg), Is(LastColumn(msg), c)))
  {
    var n := |msg|;
    var idx := Rows(msg);
    PermutationFacts(idx, n);
    forall a | a in idx ensures Is(FirstColumn(msg), c)(a) == Is(LastColumn(msg), c)(SuccOf(n)(a)) {
      SuccPred(n, a, Succ(n, a));
    }
    MapFilter(idx, Is(FirstColumn(msg), c), SuccOf(n), Is(LastColumn(msg), c));
    SuccPermutesRows(msg);
    FilterMultiset(Map(idx, SuccOf(n)), idx, Is(LastColumn(msg), c));
  }

  /**
   * The rows starting with `c`, each moved on by one, are exactly the rows
   * ending with `c`, in the same order: the fact behind the `next` links.
   */
  lemma ShiftMatchesLastColumn(msg: string, c: char)
    requires |msg| > 0
    ensures Map(Map(Filter(Rows(msg), Is(FirstColumn(msg), c)), SuccOf(|msg|)), RotationOf(msg))
         == Map(Filter(Rows(msg), Is(LastColumn(msg), c)), RotationOf(msg))
  {
    var n := |msg|;
    var idx := Rows(msg);
    var FA := Filter(idx, Is(FirstColumn(msg), c));
    var FB := Filter(idx, Is(LastColumn(msg), c));
    var A, B := Map(Map(FA, SuccOf(n)), RotationOf(msg)), Map(FB, RotationOf(msg));
    assert multiset(A) == multiset(B) by {
      ShiftedStartsPermute(msg, c);
      MapMultiset(Map(FA, SuccOf(n)), FB, RotationOf(msg));
    }
    assert Sorting.SortedBy(A, Lex.Order()) by {
      PermutationFacts(idx, n);
      FilterMembers(idx, Is(FirstColumn(msg), c));
      FilterSorted(idx, Is(FirstColumn(msg), c), CSA.RotationLeq(msg));
      ShiftedRotationsSorted(msg, FA, c);
    }
    assert Sorting.SortedBy(B, Lex.Order()) by {
      FilterSorted(idx, Is(LastColumn(msg), c), CSA.RotationLeq(msg));
      RotationsSorted(msg, FB);
    }
    Lex.LeqIsTotalOrder();
    Sorting.SortedUnique(A, B, Lex.Order());
  }

  /** Among the rows starting with the same character as row `p`, row `p` comes `Rank`-th. */
  lemma RankAmongFirsts(msg: string, p: nat)
    requires p < |msg|
    ensures var f := Map(Rows(msg), FirstColumn(msg));
            var FA := Filter(Rows(msg), Is(FirstColumn(msg), f[p]));
            Rank(f, p) < |FA| && FA[Rank(f, p)] == Rows(msg)[p]
  {
    var idx := Rows(msg);
    var f := Map(idx, FirstColumn(msg));
    var c := f[p];
    FilterAt(idx, Is(FirstColumn(msg), c), p);
    CountIsFilterLength(idx[..p], FirstColumn(msg), c);
    assert Map(idx[..p], FirstColumn(msg)) == f[..p];
  }

  /** Row `next[p]` is the `Rank`-th row ending with the first character of row `p`. */
  lemma NextAmongLasts(msg: string, p: nat)
    requires p < |msg|
    ensures var f := Map(Rows(msg), FirstColumn(msg));
            var FB := Filter(Rows(msg), Is(LastColumn(msg), f[p]));
            Rank(f, p) < |FB| ==> Rows(msg)[NextTable(Transform(msg).last)[p]] == FB[Rank(f, p)]
  {
    var idx := Rows(msg);
    var t := Transform(msg).last;
    LastIsMap(msg, idx);
    var f := Map(idx, FirstColumn(msg));
    var c := f[p];
    var k := Rank(f, p);
    assert SortChars(t) == f by {
      FirstColumnIsSorted(msg);
    }
    NextTableAt(t, f, p);
    PositionsOfMap(idx, LastColumn(msg), c);
  }

  /** Row `p` of the `next` table is the `Rank`-th position, in `t`, of the `p`-th sorted character. */
  lemma NextTableAt(t: string, S: string, p: nat)
    requires S == SortChars(t) && p < |t|
    ensures |S| == |t| && Rank(S, p) < |Positions(t, S[p])| && NextTable(t)[p] == Positions(t, S[p])[Rank(S, p)]
  {
    var m := PositionMap(t);
    QueuesOfText(t);
    NextLoopValue(S, m);
    var c := S[p];
    assert c in m && Rank(S, p) < |m[c]| && NextTable(t)[p] == m[c][Rank(S, p)];
    assert m[c] == Positions(t, c);
  }

  /** Row `next[p]` holds the rotation one step on from row `p`'s. */
  lemma NextLinksRotations(msg: string, p: nat)
    requires p < |msg|
    ensures var next := NextTable(Transform(msg).last);
            && p < |next| && next[p] < |Rows(msg)|
            && Rows(msg)[next[p]] < |msg|
            && CSA.Rotation(msg, Rows(msg)[next[p]]) == CSA.Rotation(msg, Succ(|msg|, Rows(msg)[p]))
  {
    var n := |msg|;
    var idx := Rows(msg);
    var f := Map(idx, FirstColumn(msg));
    var c := f[p];
    var k := Rank(f, p);
    var FA := Filter(idx, Is(FirstColumn(msg), c));
    var FB := Filter(idx, Is(LastColumn(msg), c));
    RankAmongFirsts(msg, p);
    KthShiftMatches(msg, c, k);
    NextAmongLasts(msg, p);
    NextRowInRange(msg, p);
  }

  /** The `k`-th row starting with `c`, moved on by one, is the rotation of the `k`-th row ending with `c`. */
  lemma KthShiftMatches(msg: string, c: char, k: nat)
    requires |msg| > 0 && k < |Filter(Rows(msg), Is(FirstColumn(msg), c))|
    ensures var FA := Filter(Rows(msg), Is(FirstColumn(msg), c));
            var FB := Filter(Rows(msg), Is(LastColumn(msg), c));
            |FA| == |FB| && CSA.Rotation(msg, Succ(|msg|, FA[k])) == CSA.Rotation(msg, FB[k])
  {
    var FA := Filter(Rows(msg), Is(FirstColumn(msg), c));
    var FB := Filter(Rows(msg), Is(LastColumn(msg), c));
    ShiftMatchesLastColumn(msg, c);
    assert Map(Map(FA, SuccOf(|msg|)), RotationOf(msg))[k] == Map(FB, RotationOf(msg))[k];
  }

  lemma NextRowInRange(msg: string, p: nat)
    requires p < |msg|
    ensures NextTable(Transform(msg).last)[p] < |msg| && Rows(msg)[NextTable(Transform(msg).last)[p]] < |msg|
  {
    var q := NextTable(Transform(msg).last)[p];
    assert q < |msg|;
    assert Rows(msg)[q] < |msg| by {
      PermutationFacts(Rows(msg), |msg|);
    }
  }

  /** Row `q` of `t` ends the rotation at `idx[q]`, and `next` links each row to the row of the following rotation. */
  ghost predicate Linked(msg: string, idx: seq<nat>, t: string, next: seq<nat>) {
    && |msg| > 0 && |idx| == |t| == |next| == |msg|
    && (forall q :: 0 <= q < |msg| ==> idx[q] < |msg| && next[q] < |msg|)
    && (forall q :: 0 <= q < |msg| ==> t[q] == LastChar(msg, idx[q]))
    && (forall q {:trigger CSA.Rotation(msg, idx[next[q]])} :: 0 <= q < |msg| ==>
          CSA.Rotation(msg, idx[next[q]]) == CSA.Rotation(msg, Succ(|msg|, idx[q])))
  }

  /** The transform's own rows, last column and links are `Linked`. */
  lemma TransformLinked(msg: string)
    requires |msg| > 0
    ensures Linked(msg, Rows(msg), Transform(msg).last, NextTable(Transform(msg).last))
  {
    var idx, t := Rows(msg), Transform(msg).last;
    var next := NextTable(t);
    LastColumnOfRows(msg);
    RowsLinked(msg, idx, next);
    PermutationFacts(idx, |msg|);
  }

  lemma LastColumnOfRows(msg: string)
    ensures forall q :: 0 <= q < |msg| ==> Transform(msg).last[q] == LastChar(msg, Rows(msg)[q])
  {
    assert Transform(msg).last == Map(Rows(msg), LastColumn(msg));
  }

  /** Row `q`'s link leads to the row of the rotation one step on. */
  lemma RowsLinked(msg: string, idx: seq<nat>, next: seq<nat>)
    requires |msg| > 0 && idx == Rows(msg) && next == NextTable(Transform(msg).last)
    ensures |idx| == |next| == |msg|
    ensures forall q {:trigger next[q]} :: 0 <= q < |msg| ==>
              && next[q] < |msg|
              && CSA.Rotation(msg, idx[next[q]]) == CSA.Rotation(msg, Succ(|msg|, idx[q]))
  {
    forall q {:trigger next[q]} | 0 <= q < |msg|
      ensures next[q] < |msg| && CSA.Rotation(msg, idx[next[q]]) == CSA.Rotation(msg, Succ(|msg|, idx[q]))
    {
      NextLinksRotations(msg, q);
    }
  }

  /**
   * Following the links from a row whose rotation is the one at `j` spells
   * the message from just before `j` onwards.
   */
  lemma {:induction false} FollowSpells(msg: string, idx: seq<nat>, t: string, next: seq<nat>, p: nat, j: nat, k: nat)
    requires Linked(msg, idx, t, next)
    requires p < |msg| && j < |msg| && k <= |msg|
    requires CSA.Rotation(msg, idx[p]) == CSA.Rotation(msg, j)
    ensures Follow(t, next, p, k) == CSA.Rotation(msg, Pred(|msg|, j))[..k]
    decreases k
  {
    if k > 0 {
      var q, sj := next[p], Succ(|msg|, j);
      FollowStep(msg, idx, t, next, p, j);
      assert Follow(t, next, q, k - 1) == CSA.Rotation(msg, j)[..k - 1] by {
        FollowSpells(msg, idx, t, next, q, sj, k - 1);
      }
      FollowOneMore(msg, idx, t, next, p, j, k);
    }
  }

  /** One more link on a spelled prefix of the rotation at `j` spells one more character, the one before `j`. */
  lemma FollowOneMore(msg: string, idx: seq<nat>, t: string, next: seq<nat>, p: nat, j: nat, k: nat)
    requires Linked(msg, idx, t, next)
    requires p < |msg| && j < |msg| && 0 < k <= |msg|
    requires CSA.Rotation(msg, idx[p]) == CSA.Rotation(msg, j)
    requires Follow(t, next, next[p], k - 1) == CSA.Rotation(msg, j)[..k - 1]
    ensures Follow(t, next, p, k) == CSA.Rotation(msg, Pred(|msg|, j))[..k]
  {
    var head, tail := msg[Pred(|msg|, j)], CSA.Rotation(msg, j)[..k - 1];
    assert Follow(t, next, p, k) == [head] + tail by {
      FollowStep(msg, idx, t, next, p, j);
      FollowCons(t, next, p, k, head, tail);
    }
    RotationBefore(msg, j, k);
  }

  /** `Follow` reads row `p`'s character, then follows its link. */
  lemma FollowCons(t: string, next: seq<nat>, p: nat, k: nat, head: char, tail: string)
    requires |next| == |t| && p < |t| && forall i :: 0 <= i < |next| ==> next[i] < |t|
    requires k > 0 && t[p] == head && Follow(t, next, next[p], k - 1) == tail
    ensures Follow(t, next, p, k) == [head] + tail
  {
  }

  /** One link: row `p` ends with the character before `j`, and row `next[p]` holds the rotation after `j`. */
  lemma FollowStep(msg: string, idx: seq<nat>, t: string, next: seq<nat>, p: nat, j: nat)
    requires Linked(msg, idx, t, next)
    requires p < |msg| && j < |msg|
    requires CSA.Rotation(msg, idx[p]) == CSA.Rotation(msg, j)
    ensures t[p] == msg[Pred(|msg|, j)]
    ensures Succ(|msg|, j) < |msg| && Pred(|msg|, Succ(|msg|, j)) == j
    ensures CSA.Rotation(msg, idx[next[p]]) == CSA.Rotation(msg, Succ(|msg|, j))
  {
    var n := |msg|;
    var a := idx[p];
    assert t[p] == msg[Pred(n, j)] by {
      RotationEnds(msg, a);
      RotationEnds(msg, j);
    }
    SuccPred(n, j, Succ(n, j));
    assert CSA.Rotation(msg, idx[next[p]]) == CSA.Rotation(msg, Succ(n, j)) by {
      RotationSucc(msg, a);
      RotationSucc(msg, j);
      RotationEnds(msg, a);
      RotationEnds(msg, j);
    }
  }

  /** The rotation just before the one at `j` is its last character followed by it. */
  lemma RotationBefore(msg: string, j: nat, k: nat)
    requires j < |msg| && 0 < k <= |msg|
    ensures CSA.Rotation(msg, Pred(|msg|, j))[..k] == [msg[Pred(|msg|, j)]] + CSA.Rotation(msg, j)[..k - 1]
  {
    var n := |msg|;
    var pj := Pred(n, j);
    var r := CSA.Rotation(msg, pj);
    assert CSA.Rotation(msg, j) == r[1..] + [msg[pj]] by {
      SuccPred(n, pj, j);
      RotationSucc(msg, pj);
    }
    assert r[0] == msg[pj] by {
      RotationEnds(msg, pj);
    }
    TakeAfterHead(r, [msg[pj]], k);
  }

  /** The first `k` of `r` are its head, then the first `k - 1` of its tail followed by anything. */
  lemma TakeAfterHead(r: string, more: string, k: nat)
    requires 0 < k <= |r|
    ensures r[..k] == [r[0]] + (r[1..] + more)[..k - 1]
  {
    assert (r[1..] + more)[..k - 1] == r[1..k];
  }

  /** For a non-empty message, the inverse transform gives the message back. */
  lemma RoundTrip(msg: string)
    requires |msg| > 0
    ensures InverseTransform(Transform(msg).last, Transform(msg).first) == Ok(msg)
  {
    var n := |msg|;
    assert msg == msg[..n - 1] + [msg[n - 1]];
    var first := Transform(msg).first;
    var t := Transform(msg).last;
    var next := NextTable(t);
    var spelled := Follow(t, next, next[first], n - 1);
    assert InverseTransform(t, first) == Ok(spelled + [t[first]]);
    SpellFromFirst(msg);
  }

  /** From the message's own row, the links spell all but its last character, which that row ends with. */
  lemma SpellFromFirst(msg: string)
    requires |msg| > 0
    ensures var first := Transform(msg).first;
            var t := Transform(msg).last;
            var next := NextTable(t);
            && 0 <= first < |msg| && next[first] < |msg|
            && t[first] == msg[|msg| - 1]
            && Follow(t, next, next[first], |msg| - 1) == msg[..|msg| - 1]
  {
    var n := |msg|;
    var idx := Rows(msg);
    var first := Transform(msg).first;
    var t := Transform(msg).last;
    var next := NextTable(t);
    assert CSA.Rotation(msg, 0) == msg;
    assert t[first] == msg[n - 1] by {
      TransformLastColumn(msg);
    }
    TransformLinked(msg);
    SuccPred(n, 0, Succ(n, 0));
    FollowSpells(msg, idx, t, next, next[first], Succ(n, 0), n - 1);
  }

  // ---------------------------------------------------------------------------
  // The empty message

  /** The empty message transforms to row -1 and no text, and the inverse fails on exactly that. */
  lemma EmptyMessageFails()
    ensures Transform([]) == Transformed(-1, [])
    ensures InverseTransform(Transform([]).last, Transform([]).first) == Err(IndexOutOfBounds)
  {
  }

  /** The inverse with the empty text handled first: it decodes to the empty message. */
  function InverseTransformOrEmpty(t: string, first: int): (r: Result<string>)
    ensures t == [] ==> r == Ok([])
    ensures r.Err? <==> t != [] && !(0 <= first < |t|)
    ensures r.Ok? ==> |r.value| == |t|
  {
    if |t| == 0 then Ok([]) else InverseTransform(t, first)
  }

  /** With the empty text handled, every message round-trips. */
  lemma RoundTripOrEmpty(msg: string)
    ensures InverseTransformOrEmpty(Transform(msg).last, Transform(msg).first) == Ok(msg)
  {
    if |msg| > 0 {
      RoundTrip(msg);
    }
  }
}

/**
 * The 8-puzzle board: an n-by-n grid of tiles `1 .. n*n-1` and one blank (0),
 * stored row-major in a flat sequence, with the Hamming and Manhattan
 * priorities, the goal test, the boards one blank move away, and equality.
 */
module Board {
  import opened Wrappers
  import Grid

  const EMPTY: int := 0

  datatype Board = Board(dimension: nat, blocks: seq<int>)

  /** What the public constructor guarantees of every board it builds. */
  predicate Valid(b: Board) {
    b.dimension >= 2 && |b.blocks| == b.dimension * b.dimension
  }

  function Abs(x: int): nat {
    if x < 0 then -x else x
  }

  // ---------------------------------------------------------------------------
  // Construction

  /** Every row holds at least `n` entries. */
  predicate RowsCover(rows: seq<seq<int>>, n: nat) {
    forall i :: 0 <= i < |rows| ==> |rows[i]| >= n
  }

  /** Cell `(i, j)` of the `n` by `n` grid `rows` sits at index `i * n + j` of `flat`. */
  predicate RowMajorOf(flat: seq<int>, rows: seq<seq<int>>, n: nat)
    requires |rows| == n && RowsCover(rows, n)
  {
    && |flat| == n * n
    && forall i, j :: 0 <= i < n && 0 <= j < n ==>
         Grid.Flatten(i, j, n) < |flat| && flat[Grid.Flatten(i, j, n)] == rows[i][j]
  }

  /** Row-major copy of the first `n` columns of the first `n` rows. */
  function FlattenRows(rows: seq<seq<int>>, n: nat): (flat: seq<int>)
    requires |rows| == n && RowsCover(rows, n)
    ensures RowMajorOf(flat, rows, n)
  {
    var flat := seq(n * n, k requires 0 <= k < n * n =>
                  Grid.SplitInRange(k, n, n); rows[k / n][k % n]);
    assert forall i, j :: 0 <= i < n && 0 <= j < n ==>
        Grid.Flatten(i, j, n) < |flat| && flat[Grid.Flatten(i, j, n)] == rows[i][j] by {
      forall i, j | 0 <= i < n && 0 <= j < n
        ensures Grid.Flatten(i, j, n) < |flat| && flat[Grid.Flatten(i, j, n)] == rows[i][j]
      {
        Grid.FlattenInRange(i, j, n, n);
        Grid.Unflatten(i, j, n);
      }
    }
    flat
  }

  /**
   * The public constructor. `None` stands for a null array. A later row that
   * is shorter than the dimension makes the copy loop index past its end.
   */
  function New(rows: Option<seq<seq<int>>>): (r: Result<Board>)
    ensures rows.None? ==> r == Err(IllegalArgument)
    ensures rows.Some? && |rows.value| <= 1 ==> r == Err(IllegalArgument)
    ensures rows.Some? && |rows.value| > 1 && |rows.value[0]| != |rows.value| ==> r == Err(IllegalArgument)
    ensures rows.Some? && |rows.value| > 1 && |rows.value[0]| == |rows.value| && !RowsCover(rows.value, |rows.value|)
            ==> r == Err(IndexOutOfBounds)
    ensures r.Ok? <==> rows.Some? && |rows.value| > 1 && |rows.value[0]| == |rows.value|
                       && RowsCover(rows.value, |rows.value|)
    ensures r.Ok? ==> Valid(r.value) && r.value.dimension == |rows.value|
    ensures r.Ok? ==> RowMajorOf(r.value.blocks, rows.value, |rows.value|)
  {
    match rows
    case None => Err(IllegalArgument)
    case Some(m) =>
      if |m| <= 1 then Err(IllegalArgument)
      else if |m[0]| != |m| then Err(IllegalArgument)
      else if !RowsCover(m, |m|) then Err(IndexOutOfBounds)
      else Ok(Board(|m|, FlattenRows(m, |m|)))
  }

  // ---------------------------------------------------------------------------
  // Priorities

  /** Cell `i` holds a tile that is not the one the goal board puts there. */
  predicate Misplaced(blocks: seq<int>, i: int) {
    0 <= i < |blocks| && blocks[i] != EMPTY && blocks[i] != i + 1
  }

  /** The Hamming count over the first `k` cells, as the constructor's loop accumulates it. */
  function HammingUpTo(blocks: seq<int>, k: nat): (h: nat)
    requires k <= |blocks|
    ensures h == |set i | 0 <= i < k && Misplaced(blocks, i)|
    ensures h <= k
  {
    if k == 0 then
      0
    else
      var prev := HammingUpTo(blocks, k - 1);
      var before := set i | 0 <= i < k - 1 && Misplaced(blocks, i);
      var now := set i | 0 <= i < k && Misplaced(blocks, i);
      if Misplaced(blocks, k - 1) then
        assert now == before + {k - 1};
        prev + 1
      else
        assert now == before;
        prev
  }

  /** Number of tiles out of place; the blank does not count. */
  function Hamming(b: Board): (h: nat)
    ensures h == |set i | 0 <= i < |b.blocks| && Misplaced(b.blocks, i)|
    ensures h == 0 <==> forall i :: 0 <= i < |b.blocks| ==> !Misplaced(b.blocks, i)
  {
    var h := HammingUpTo(b.blocks, |b.blocks|);
    assert h != 0 <==> exists i :: 0 <= i < |b.blocks| && Misplaced(b.blocks, i) by {
      var misplaced := set i | 0 <= i < |b.blocks| && Misplaced(b.blocks, i);
      if exists i :: 0 <= i < |b.blocks| && Misplaced(b.blocks, i) {
        var i :| 0 <= i < |b.blocks| && Misplaced(b.blocks, i);
        assert i in misplaced;
      }
    }
    h
  }

  /** Java's `/`, which truncates toward zero. */
  function JavaDiv(a: int, n: int): int
    requires n > 0
  {
    if a >= 0 then a / n else -((-a) / n)
  }

  /** Java's `%`, whose sign follows the dividend. */
  function JavaRem(a: int, n: int): int
    requires n > 0
  {
    if a >= 0 then a % n else -((-a) % n)
  }

  /** Column plus row distance of the tile in cell `i` from its goal cell. */
  function TileDistance(blocks: seq<int>, i: nat, n: nat): nat
    requires i < |blocks| && n > 0
  {
    var val := blocks[i];
    if val != EMPTY && val != i + 1 then
      Abs(JavaRem(val - 1, n) - i % n) + Abs(JavaDiv(val - 1, n) - i / n)
    else
      0
  }

  function ManhattanUpTo(blocks: seq<int>, n: nat, k: nat): nat
    requires k <= |blocks| && n > 0
  {
    if k == 0 then 0 else ManhattanUpTo(blocks, n, k - 1) + TileDistance(blocks, k - 1, n)
  }

  /**
   * Sum of the Manhattan distances of the tiles to their goal cells: at least
   * the Hamming count, and zero exactly when no tile is out of place.
   */
  function Manhattan(b: Board): (m: nat)
    requires Valid(b)
    ensures m >= Hamming(b)
    ensures m == 0 <==> forall i :: 0 <= i < |b.blocks| ==> !Misplaced(b.blocks, i)
  {
    HammingAtMostManhattanUpTo(b.blocks, b.dimension, |b.blocks|);
    ManhattanUpTo(b.blocks, b.dimension, |b.blocks|)
  }

  /** A misplaced tile, whatever its value, is at least one step from its goal cell. */
  lemma MisplacedTileMoves(blocks: seq<int>, i: nat, n: nat)
    requires i < |blocks| && n > 0
    ensures Misplaced(blocks, i) <==> TileDistance(blocks, i, n) >= 1
  {
  }

  /** The Hamming priority never exceeds the Manhattan priority. */
  lemma {:induction false} HammingAtMostManhattanUpTo(blocks: seq<int>, n: nat, k: nat)
    requires k <= |blocks| && n > 0
    ensures HammingUpTo(blocks, k) <= ManhattanUpTo(blocks, n, k)
    ensures HammingUpTo(blocks, k) == 0 <==> ManhattanUpTo(blocks, n, k) == 0
  {
    if k > 0 {
      HammingAtMostManhattanUpTo(blocks, n, k - 1);
      MisplacedTileMoves(blocks, k - 1, n);
    }
  }

  lemma HammingAtMostManhattan(b: Board)
    requires Valid(b)
    ensures Hamming(b) <= Manhattan(b)
    ensures Hamming(b) == 0 <==> Manhattan(b) == 0
  {
    HammingAtMostManhattanUpTo(b.blocks, b.dimension, |b.blocks|);
  }

  // ---------------------------------------------------------------------------
  // Goal test

  /** The goal loop as written: stops two cells before the end. */
  function GoalFrom(blocks: seq<int>, i: nat): (r: bool)
    ensures r <==> forall k :: i <= k < |blocks| - 2 ==> blocks[k] == k + 1
    decreases |blocks| - i
  {
    if i >= |blocks| - 2 then true
    else if i != blocks[i] - 1 then false
    else GoalFrom(blocks, i + 1)
  }

  /** Is this the goal board? As written: only cells `0 .. n*n-3` are checked. */
  function IsGoal(b: Board): (r: bool)
    ensures r <==> forall k :: 0 <= k < |b.blocks| - 2 ==> b.blocks[k] == k + 1
  {
    GoalFrom(b.blocks, 0)
  }

  /** The goal arrangement of `m` cells: tiles `1 .. m-1` in order, then the blank. */
  function GoalBlocks(m: nat): seq<int> {
    seq(m, i => if i < m - 1 then i + 1 else EMPTY)
  }

  /** The blocks hold exactly the tiles `1 .. m-1` and one blank. */
  predicate IsTileSet(blocks: seq<int>) {
    multiset(blocks) == multiset(GoalBlocks(|blocks|))
  }

  /**
   * As written, the goal test accepts the 2-by-2 board one move short of the
   * goal, whose last tile sits where the blank belongs.
   */
  lemma IsGoalAcceptsUnsolvedBoard()
    ensures var b := Board(2, [1, 2, 0, 3]);
            Valid(b) && IsTileSet(b.blocks) && IsGoal(b)
            && b.blocks != GoalBlocks(4) && Hamming(b) == 1
  {
    var b := Board(2, [1, 2, 0, 3]);
    assert Valid(b) && |b.blocks| == 4;
    assert IsGoal(b) by {
      assert b.blocks[0] == 1 && b.blocks[1] == 2;
    }
    assert IsTileSet(b.blocks) by {
      assert GoalBlocks(4) == [1, 2, 3, 0];
      assert multiset(b.blocks) == multiset([1, 2, 3, 0]);
    }
    assert b.blocks != GoalBlocks(4) by {
      assert GoalBlocks(4)[2] == 3;
    }
    assert Hamming(b) == 1 by {
      OneTileMisplaced();
    }
  }

  /** In `[1, 2, 0, 3]` only the tile `3` is out of place. */
  lemma OneTileMisplaced()
    ensures HammingUpTo([1, 2, 0, 3], 4) == 1
  {
    var s := [1, 2, 0, 3];
    assert HammingUpTo(s, 1) == 0 by { assert !Misplaced(s, 0); }
    assert HammingUpTo(s, 2) == 0 by { assert !Misplaced(s, 1); }
    assert HammingUpTo(s, 3) == 0 by { assert !Misplaced(s, 2); }
    assert Misplaced(s, 3);
  }

  function GoalFromFixed(blocks: seq<int>, i: nat): (r: bool)
    ensures r <==> forall k :: i <= k < |blocks| - 1 ==> blocks[k] == k + 1
    decreases |blocks| - i
  {
    if i >= |blocks| - 1 then true
    else if i != blocks[i] - 1 then false
    else GoalFromFixed(blocks, i + 1)
  }

  /** The goal test with the loop running over every cell but the last. */
  function IsGoalFixed(b: Board): bool {
    GoalFromFixed(b.blocks, 0)
  }

  /** On a board of tiles and one blank, the fixed goal test recognises exactly the goal board. */
  lemma IsGoalFixedExact(b: Board)
    requires Valid(b) && IsTileSet(b.blocks)
    ensures IsGoalFixed(b) <==> b.blocks == GoalBlocks(|b.blocks|)
  {
    var m := |b.blocks|;
    var g := GoalBlocks(m);
    if IsGoalFixed(b) {
      assert b.blocks[..m - 1] == g[..m - 1];
      SameButLast(b.blocks, g);
    }
  }

  /** Two permutations of each other that agree on all but the last place agree there too. */
  lemma SameButLast(a: seq<int>, g: seq<int>)
    requires |a| == |g| > 0 && multiset(a) == multiset(g)
    requires a[..|a| - 1] == g[..|g| - 1]
    ensures a == g
  {
    var m := |a|;
    assert a == a[..m - 1] + [a[m - 1]];
    assert g == g[..m - 1] + [g[m - 1]];
    assert multiset(a) == multiset(a[..m - 1]) + multiset{a[m - 1]};
    assert multiset(g) == multiset(g[..m - 1]) + multiset{g[m - 1]};
    var x := a[m - 1];
    assert multiset(a)[x] == multiset(a[..m - 1])[x] + 1;
    assert multiset(g)[x] == multiset(g[..m - 1])[x] + if x == g[m - 1] then 1 else 0;
  }

  // ---------------------------------------------------------------------------
  // Neighbours

  function FindEmptyFrom(blocks: seq<int>, i: nat): (r: Result<nat>)
    requires i <= |blocks|
    ensures r.Ok? ==> i <= r.value < |blocks| && blocks[r.value] == EMPTY
                      && forall k :: i <= k < r.value ==> blocks[k] != EMPTY
    ensures r.Err? <==> EMPTY !in blocks[i..]
    ensures r.Err? ==> r.error == IllegalState
    decreases |blocks| - i
  {
    if i == |blocks| then Err(IllegalState)
    else if blocks[i] == EMPTY then Ok(i)
    else
      assert blocks[i..] == [blocks[i]] + blocks[i + 1..];
      FindEmptyFrom(blocks, i + 1)
  }

  /** Position of the first blank; a board without one is an illegal state. */
  function FindEmptyPosition(blocks: seq<int>): (r: Result<nat>)
    ensures r.Ok? ==> r.value < |blocks| && blocks[r.value] == EMPTY
                      && forall k :: 0 <= k < r.value ==> blocks[k] != EMPTY
    ensures r.Err? <==> EMPTY !in blocks
    ensures r.Err? ==> r.error == IllegalState
  {
    assert blocks[0..] == blocks;
    FindEmptyFrom(blocks, 0)
  }

  /** Swap the contents of two cells. */
  function Exchange(s: seq<int>, p: nat, q: nat): (r: seq<int>)
    requires p < |s| && q < |s|
    ensures |r| == |s| && r[p] == s[q] && r[q] == s[p]
    ensures forall k :: 0 <= k < |s| && k != p && k != q ==> r[k] == s[k]
    ensures multiset(r) == multiset(s)
  {
    s[p := s[q]][q := s[p]]
  }

  /** Cells `a` and `p` of an n-by-n grid share a side. */
  predicate Adjacent(n: nat, a: int, p: int)
    requires n > 0
  {
    0 <= a < n * n && 0 <= p < n * n && Abs(a / n - p / n) + Abs(a % n - p % n) == 1
  }

  lemma AdjacentSymmetric(n: nat, a: int, p: int)
    requires n > 0 && Adjacent(n, a, p)
    ensures Adjacent(n, p, a)
  {
  }

  lemma LeftIsAdjacent(n: nat, e: nat)
    requires n >= 2 && e < n * n && e % n > 0
    ensures Adjacent(n, e, e - 1)
  {
    Grid.SplitInRange(e, n, n);
    Grid.Unflatten(e / n, e % n - 1, n);
  }

  lemma RightIsAdjacent(n: nat, e: nat)
    requires n >= 2 && e < n * n && e % n < n - 1
    ensures Adjacent(n, e, e + 1)
  {
    Grid.SplitInRange(e, n, n);
    Grid.Unflatten(e / n, e % n + 1, n);
    Grid.FlattenInRange(e / n, e % n + 1, n, n);
  }

  lemma UpIsAdjacent(n: nat, e: nat)
    requires n >= 2 && e < n * n && e / n > 0
    ensures Adjacent(n, e, e - n)
  {
    var row, col := e / n, e % n;
    Grid.SplitInRange(e, n, n);
    assert e - n == (row - 1) * n + col;
    Grid.DivModUnique(e - n, n, row - 1, col);
  }

  lemma DownIsAdjacent(n: nat, e: nat)
    requires n >= 2 && e < n * n && e / n < n - 1
    ensures Adjacent(n, e, e + n)
  {
    var row, col := e / n, e % n;
    Grid.SplitInRange(e, n, n);
    assert e + n == (row + 1) * n + col;
    Grid.DivModUnique(e + n, n, row + 1, col);
    Grid.FlattenInRange(row + 1, col, n, n);
  }

  lemma MovesAreAdjacent(n: nat, e: nat)
    requires n >= 2 && e < n * n
    ensures e % n > 0 ==> Adjacent(n, e, e - 1)
    ensures e % n < n - 1 ==> Adjacent(n, e, e + 1)
    ensures e / n > 0 ==> Adjacent(n, e, e - n)
    ensures e / n < n - 1 ==> Adjacent(n, e, e + n)
  {
    if e % n > 0 { LeftIsAdjacent(n, e); }
    if e % n < n - 1 { RightIsAdjacent(n, e); }
    if e / n > 0 { UpIsAdjacent(n, e); }
    if e / n < n - 1 { DownIsAdjacent(n, e); }
  }

  /** Neighbouring rows start `n` cells apart. */
  lemma RowStarts(er: int, pr: int, n: int)
    ensures pr == er + 1 ==> pr * n == er * n + n
    ensures pr == er - 1 ==> pr * n == er * n - n
  {
  }

  /** `AdjacentIsMove` with the row starts `er * n` and `pr * n` given by name. */
  lemma AdjacentByRows(n: int, e: int, p: int, er: int, ec: int, pr: int, pc: int, eRow: int, pRow: int)
    requires n >= 2 && 0 <= er < n && 0 <= pr < n && 0 <= ec < n && 0 <= pc < n
    requires e == eRow + ec && p == pRow + pc
    requires Abs(er - pr) + Abs(ec - pc) == 1
    requires er == pr ==> eRow == pRow
    requires pr == er + 1 ==> pRow == eRow + n
    requires pr == er - 1 ==> pRow == eRow - n
    ensures || (p == e - 1 && ec > 0)
            || (p == e + 1 && ec < n - 1)
            || (p == e - n && er > 0)
            || (p == e + n && er < n - 1)
  {
  }

  /** Every cell adjacent to `e` is one of the four moves, each possible only away from the edge it crosses. */
  lemma AdjacentIsMove(n: nat, e: nat, p: int)
    requires n >= 2 && Adjacent(n, e, p)
    ensures || (p == e - 1 && e % n > 0)
            || (p == e + 1 && e % n < n - 1)
            || (p == e - n && e / n > 0)
            || (p == e + n && e / n < n - 1)
  {
    var er, ec, pr, pc := e / n, e % n, p / n, p % n;
    Grid.SplitInRange(e, n, n);
    Grid.SplitInRange(p, n, n);
    RowStarts(er, pr, n);
    AdjacentByRows(n, e, p, er, ec, pr, pc, er * n, pr * n);
  }

  /** The side of the blank at `e` on which a neighbouring cell `p` lies: 0 left, 1 right, 2 up, 3 down. */
  function Side(e: int, p: int): nat {
    if p == e - 1 then 0 else if p == e + 1 then 1 else if p < e then 2 else 3
  }

  /** Along `ts` the sides strictly increase. */
  predicate SidesIncrease(e: int, ts: seq<int>) {
    forall k, l :: 0 <= k < l < |ts| ==> Side(e, ts[k]) < Side(e, ts[l])
  }

  /** Joining two runs whose sides increase, all of the first below `m` and all of the second from `m` on. */
  lemma JoinSidesIncrease(e: int, xs: seq<int>, ys: seq<int>, m: int)
    requires SidesIncrease(e, xs) && SidesIncrease(e, ys)
    requires forall p :: p in xs ==> Side(e, p) < m
    requires forall p :: p in ys ==> Side(e, p) >= m
    ensures SidesIncrease(e, xs + ys)
  {
    var zs := xs + ys;
    forall k, l | 0 <= k < l < |zs| ensures Side(e, zs[k]) < Side(e, zs[l]) {
      if l < |xs| {
        assert zs[k] == xs[k] && zs[l] == xs[l];
      } else if k >= |xs| {
        assert zs[k] == ys[k - |xs|] && zs[l] == ys[l - |xs|];
      } else {
        assert zs[k] in xs && zs[l] in ys;
      }
    }
  }

  /** Four runs of at most one cell, lying left, right, up and down of the blank in that order. */
  lemma MovesInSideOrder(e: int, left: seq<int>, right: seq<int>, up: seq<int>, down: seq<int>)
    requires |left| <= 1 && |right| <= 1 && |up| <= 1 && |down| <= 1
    requires forall p :: p in left ==> Side(e, p) == 0
    requires forall p :: p in right ==> Side(e, p) == 1
    requires forall p :: p in up ==> Side(e, p) == 2
    requires forall p :: p in down ==> Side(e, p) == 3
    ensures SidesIncrease(e, left + right + up + down)
  {
    JoinSidesIncrease(e, left, right, 1);
    assert forall p :: p in left + right ==> Side(e, p) < 2;
    JoinSidesIncrease(e, left + right, up, 2);
    assert forall p :: p in left + right + up ==> Side(e, p) < 3;
    JoinSidesIncrease(e, left + right + up, down, 3);
  }

  /** The cells the blank at `e` can trade with, in the order left, right, up, down. */
  function MoveTargets(n: nat, e: nat): (ts: seq<int>)
    requires n >= 2 && e < n * n
    ensures 2 <= |ts| <= 4
    ensures forall p :: p in ts <==> Adjacent(n, e, p)
    ensures forall k :: 0 <= k < |ts| ==> Adjacent(n, e, ts[k])
    ensures SidesIncrease(e, ts)
  {
    var ts := (if e % n > 0 then [e - 1] else []) + (if e % n < n - 1 then [e + 1] else [])
              + (if e / n > 0 then [e - n] else []) + (if e / n < n - 1 then [e + n] else []);
    TargetsAreAdjacent(n, e, ts);
    TargetsInSideOrder(n, e, ts);
    ts
  }

  /** The targets `MoveTargets` lists are exactly the cells beside the blank. */
  lemma TargetsAreAdjacent(n: nat, e: nat, ts: seq<int>)
    requires n >= 2 && e < n * n
    requires ts == (if e % n > 0 then [e - 1] else []) + (if e % n < n - 1 then [e + 1] else [])
                   + (if e / n > 0 then [e - n] else []) + (if e / n < n - 1 then [e + n] else [])
    ensures 2 <= |ts| <= 4
    ensures forall p :: p in ts <==> Adjacent(n, e, p)
    ensures forall k :: 0 <= k < |ts| ==> Adjacent(n, e, ts[k])
  {
    assert forall p :: p in ts ==> Adjacent(n, e, p) by {
      MovesAreAdjacent(n, e);
    }
    assert forall p :: Adjacent(n, e, p) ==> p in ts by {
      forall p | Adjacent(n, e, p)
        ensures p in ts
      {
        AdjacentIsMove(n, e, p);
      }
    }
    assert forall k :: 0 <= k < |ts| ==> Adjacent(n, e, ts[k]) by {
      forall k | 0 <= k < |ts| ensures Adjacent(n, e, ts[k]) {
        assert ts[k] in ts;
      }
    }
  }

  /** The targets `MoveTargets` lists lie left, right, up and down of the blank, in that order. */
  lemma TargetsInSideOrder(n: nat, e: nat, ts: seq<int>)
    requires n >= 2
    requires ts == (if e % n > 0 then [e - 1] else []) + (if e % n < n - 1 then [e + 1] else [])
                   + (if e / n > 0 then [e - n] else []) + (if e / n < n - 1 then [e + n] else [])
    ensures SidesIncrease(e, ts)
  {
    var left, right := if e % n > 0 then [e - 1] else [], if e % n < n - 1 then [e + 1] else [];
    var up, down := if e / n > 0 then [e - n] else [], if e / n < n - 1 then [e + n] else [];
    assert Side(e, e - 1) == 0 && Side(e, e + 1) == 1 && Side(e, e - n) == 2 && Side(e, e + n) == 3;
    MovesInSideOrder(e, left, right, up, down);
  }

  /** The board with the blank at `e` traded for the tile at `p`. */
  function BlankMove(b: Board, e: nat, p: nat): (nb: Board)
    requires Valid(b) && e < |b.blocks| && p < |b.blocks|
    ensures Valid(nb) && nb.dimension == b.dimension
    ensures multiset(nb.blocks) == multiset(b.blocks)
  {
    Board(b.dimension, Exchange(b.blocks, e, p))
  }

  /** `nb` arises from `b` by sliding one tile that shares a side with the blank at `e` into it. */
  predicate MovesBlank(b: Board, e: nat, nb: Board)
    requires Valid(b) && e < |b.blocks|
  {
    exists p: nat :: p < |b.blocks| && Adjacent(b.dimension, e, p) && nb == BlankMove(b, e, p)
  }

  /**
   * The boards reachable by moving one tile into the blank, in the order
   * left, right, up, down of the tile relative to the blank.
   */
  function Neighbors(b: Board): (r: Result<seq<Board>>)
    requires Valid(b)
    ensures r.Err? <==> EMPTY !in b.blocks
    ensures r.Err? ==> r.error == IllegalState
    ensures r.Ok? ==> 2 <= |r.value| <= 4
    ensures r.Ok? ==> forall k :: 0 <= k < |r.value| ==>
              Valid(r.value[k]) && r.value[k].dimension == b.dimension
              && multiset(r.value[k].blocks) == multiset(b.blocks)
  {
    var found := FindEmptyPosition(b.blocks);
    if found.Err? then Err(found.error)
    else
      var e := found.value;
      var ts := MoveTargets(b.dimension, e);
      Ok(seq(|ts|, k requires 0 <= k < |ts| => BlankMove(b, e, ts[k])))
  }

  /**
   * Each neighbour is the board with the blank traded for one tile that
   * shares a side with it, and every such trade yields a neighbour. The
   * `k`-th neighbour trades with the `k`-th target of `MoveTargets`, so the
   * neighbours come in the order left, right, up, down.
   */
  lemma NeighborsAreBlankMoves(b: Board)
    requires Valid(b) && Neighbors(b).Ok?
    ensures var e := FindEmptyPosition(b.blocks).value;
            var nbs := Neighbors(b).value;
            && (forall k :: 0 <= k < |nbs| ==> MovesBlank(b, e, nbs[k]))
            && (forall p: nat :: Adjacent(b.dimension, e, p) ==> BlankMove(b, e, p) in nbs)
    ensures var e := FindEmptyPosition(b.blocks).value;
            var nbs := Neighbors(b).value;
            var ts := MoveTargets(b.dimension, e);
            && |nbs| == |ts| && SidesIncrease(e, ts)
            && forall k :: 0 <= k < |ts| ==> 0 <= ts[k] < |b.blocks| && nbs[k] == BlankMove(b, e, ts[k])
  {
    var e := FindEmptyPosition(b.blocks).value;
    var nbs := Neighbors(b).value;
    var ts := MoveTargets(b.dimension, e);
    forall k | 0 <= k < |nbs|
      ensures MovesBlank(b, e, nbs[k])
    {
      var p: nat := ts[k];
      assert Adjacent(b.dimension, e, p) && nbs[k] == BlankMove(b, e, p);
    }
    forall p: nat | Adjacent(b.dimension, e, p)
      ensures BlankMove(b, e, p) in nbs
    {
      var k :| 0 <= k < |ts| && ts[k] == p;
      assert nbs[k] == BlankMove(b, e, p);
    }
  }

  /** The board has exactly one blank. */
  predicate OneBlank(blocks: seq<int>) {
    && EMPTY in blocks
    && forall i, j :: 0 <= i < |blocks| && 0 <= j < |blocks| && blocks[i] == EMPTY && blocks[j] == EMPTY ==> i == j
  }

  /** Trading the same two cells twice restores the sequence. */
  lemma ExchangeTwice(s: seq<int>, p: nat, q: nat)
    requires p < |s| && q < |s|
    ensures Exchange(Exchange(s, p, q), q, p) == s
  {
    var t := Exchange(Exchange(s, p, q), q, p);
    assert forall k :: 0 <= k < |s| ==> t[k] == s[k];
  }

  /** After a blank move from a board with one blank, the blank sits exactly where the tile was. */
  lemma BlankAfterMove(b: Board, e: nat, p: nat)
    requires Valid(b) && OneBlank(b.blocks) && e < |b.blocks| && b.blocks[e] == EMPTY
    requires p < |b.blocks| && p != e
    ensures var nb := BlankMove(b, e, p);
            OneBlank(nb.blocks) && FindEmptyPosition(nb.blocks) == Ok(p)
  {
    var nb := BlankMove(b, e, p);
    assert b.blocks[p] != EMPTY;
    assert nb.blocks[p] == EMPTY;
    forall i | 0 <= i < |nb.blocks| && i != p
      ensures nb.blocks[i] != EMPTY
    {
      if i == e {
        assert nb.blocks[e] == b.blocks[p];
      } else {
        assert nb.blocks[i] == b.blocks[i];
      }
    }
    var r := FindEmptyPosition(nb.blocks);
    assert r.Ok?;
    assert nb.blocks[r.value] == EMPTY;
  }

  /** Moving the blank is reversible: every neighbour has the original board among its neighbours. */
  lemma NeighborsSymmetric(b: Board, k: nat)
    requires Valid(b) && OneBlank(b.blocks)
    requires Neighbors(b).Ok? && k < |Neighbors(b).value|
    ensures var nb := Neighbors(b).value[k];
            Neighbors(nb).Ok? && b in Neighbors(nb).value
  {
    var n := b.dimension;
    var e := FindEmptyPosition(b.blocks).value;
    var nb := Neighbors(b).value[k];
    NeighborsAreBlankMoves(b);
    assert MovesBlank(b, e, nb);
    var p: nat :| p < |b.blocks| && Adjacent(n, e, p) && nb == BlankMove(b, e, p);
    BlankAfterMove(b, e, p);
    AdjacentSymmetric(n, e, p);
    NeighborsAreBlankMoves(nb);
    ExchangeTwice(b.blocks, e, p);
    assert BlankMove(nb, p, e) == b;
  }

  // ---------------------------------------------------------------------------
  // Equality

  function SameFrom(x: seq<int>, y: seq<int>, i: nat): (r: bool)
    requires |x| == |y| && i <= |x|
    ensures r <==> x[i..] == y[i..]
    decreases |x| - i
  {
    if i == |x| then true
    else if x[i] != y[i] then false
    else
      assert x[i..] == [x[i]] + x[i + 1..] && y[i..] == [y[i]] + y[i + 1..];
      SameFrom(x, y, i + 1)
  }

  /** `equals`: `None` stands for null; boards are equal when dimension and blocks agree. */
  function Equals(a: Board, y: Option<Board>): (r: bool)
    ensures r <==> y == Some(a)
  {
    match y
    case None => false
    case Some(other) =>
      if a.dimension != other.dimension then false
      else if |a.blocks| != |other.blocks| then false
      else
        assert a.blocks[0..] == a.blocks && other.blocks[0..] == other.blocks;
        SameFrom(a.blocks, other.blocks, 0)
  }

  lemma EqualsIsEquivalence(a: Board, b: Board, c: Board)
    ensures Equals(a, Some(a))
    ensures Equals(a, Some(b)) <==> Equals(b, Some(a))
    ensures Equals(a, Some(b)) && Equals(b, Some(c)) ==> Equals(a, Some(c))
    ensures !Equals(a, None)
  {
  }
}

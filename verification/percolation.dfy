/**
 * An `n`-by-`n` grid of sites, each blocked or open, addressed by 1-based
 * row and column. Union-find nodes are numbered `0` (a virtual top site),
 * `1..n*n` (the sites, row by row) and `n*n + 1` (a virtual bottom site).
 * Opening a site joins it with its open orthogonal neighbours, and with the
 * virtual top or bottom when it lies in the first or last row. A site is full
 * when it is connected to the top; the system percolates when the top and the
 * bottom are connected.
 */
module Percolation {
  import opened Wrappers
  import Grid
  import opened Connectivity

  /** The grid, the open-site counter and the union calls made so far. */
  datatype Percolation = Percolation(size: nat, grid: seq<seq<bool>>, openSites: nat, unions: seq<Union>)

  /** `isValidSite`: both coordinates in `1..size`, so the site is one of the `size * size` cells, row by row. */
  predicate IsValidSite(size: int, row: int, col: int): (r: bool)
    ensures r ==> 0 <= Grid.Flatten(row - 1, col - 1, size) < size * size
  {
    if 0 < row <= size && 0 < col <= size then
      Grid.FlattenInRange(row - 1, col - 1, size, size);
      true
    else
      false
  }

  /** `mapTo1DArray`: the union-find node of a site. */
  function MapTo1DArray(size: int, row: int, col: int): int {
    (row - 1) * size + col
  }

  /** The virtual bottom node (`Math.pow(size, 2) + 1`); the virtual top is `0`. */
  function Bottom(size: nat): int {
    size * size + 1
  }

  /** The site of a node in `1..size*size`: the inverse of `MapTo1DArray`. */
  function SiteOf(size: nat, k: int): (int, int)
    requires size > 0
  {
    ((k - 1) / size + 1, (k - 1) % size + 1)
  }

  /** Valid sites go to distinct nodes in `1..size*size`, clear of both virtual nodes, and come back out. */
  lemma MapTo1DArrayRange(size: nat, row: int, col: int)
    requires IsValidSite(size, row, col)
    ensures 1 <= MapTo1DArray(size, row, col) <= size * size
    ensures MapTo1DArray(size, row, col) != 0 && MapTo1DArray(size, row, col) != Bottom(size)
    ensures SiteOf(size, MapTo1DArray(size, row, col)) == (row, col)
  {
    Grid.FlattenInRange(row - 1, col - 1, size, size);
    assert MapTo1DArray(size, row, col) == Grid.Flatten(row - 1, col - 1, size) + 1;
    Grid.Unflatten(row - 1, col - 1, size);
  }

  lemma MapTo1DArrayInjective(size: nat, r1: int, c1: int, r2: int, c2: int)
    requires IsValidSite(size, r1, c1) && IsValidSite(size, r2, c2)
    ensures MapTo1DArray(size, r1, c1) == MapTo1DArray(size, r2, c2) <==> r1 == r2 && c1 == c2
  {
    MapTo1DArrayRange(size, r1, c1);
    MapTo1DArrayRange(size, r2, c2);
  }

  /** Every node in `1..size*size` is the node of exactly the site `SiteOf` names. */
  lemma SiteOfRange(size: nat, k: int)
    requires size > 0 && 1 <= k <= size * size
    ensures IsValidSite(size, SiteOf(size, k).0, SiteOf(size, k).1)
    ensures MapTo1DArray(size, SiteOf(size, k).0, SiteOf(size, k).1) == k
  {
    Grid.SplitInRange(k - 1, size, size);
  }

  /** The site at `(row, col)` is in the grid and open. */
  predicate OpenCell(p: Percolation, row: int, col: int) {
    && IsValidSite(p.size, row, col)
    && row - 1 < |p.grid| && col - 1 < |p.grid[row - 1]|
    && p.grid[row - 1][col - 1]
  }

  /** A node a union may mention: a virtual node, or the node of an open site. */
  ghost predicate Endpoint(p: Percolation, k: int) {
    || k == 0
    || k == Bottom(p.size)
    || exists row, col :: OpenCell(p, row, col) && k == MapTo1DArray(p.size, row, col)
  }

  /** The open sites in a row of the grid. */
  function RowOpen(row: seq<bool>): nat {
    multiset(row)[true]
  }

  /** The open sites in the whole grid. */
  function OpenCount(g: seq<seq<bool>>): nat
    decreases |g|
  {
    if g == [] then 0 else OpenCount(g[..|g| - 1]) + RowOpen(g[|g| - 1])
  }

  /**
   * What the constructor sets up and `open` keeps: a square grid, a counter
   * that matches the open sites, and unions only between a site's node and
   * virtual or open-site nodes.
   */
  ghost predicate Valid(p: Percolation) {
    && |p.grid| == p.size
    && (forall i :: 0 <= i < p.size ==> |p.grid[i]| == p.size)
    && p.openSites == OpenCount(p.grid)
    && forall i :: 0 <= i < |p.unions| ==> Endpoint(p, p.unions[i].0) && Endpoint(p, p.unions[i].1)
  }

  lemma {:induction false} OpenCountUpdate(g: seq<seq<bool>>, i: nat, row: seq<bool>)
    requires i < |g|
    ensures OpenCount(g[i := row]) + RowOpen(g[i]) == OpenCount(g) + RowOpen(row)
    decreases |g|
  {
    var g' := g[i := row];
    if i < |g| - 1 {
      assert g'[..|g'| - 1] == g[..|g| - 1][i := row];
      OpenCountUpdate(g[..|g| - 1], i, row);
    } else {
      assert g'[..|g'| - 1] == g[..|g| - 1];
    }
  }

  lemma {:induction false} OpenCountBlocked(g: seq<seq<bool>>)
    requires forall i, j :: 0 <= i < |g| && 0 <= j < |g[i]| ==> !g[i][j]
    ensures OpenCount(g) == 0
    decreases |g|
  {
    if g != [] {
      OpenCountBlocked(g[..|g| - 1]);
      assert true !in multiset(g[|g| - 1]);
    }
  }

  /** The constructor: `n` by `n`, every site blocked, no unions yet. */
  function New(n: nat): (p: Percolation)
    ensures Valid(p) && p.size == n && p.openSites == 0
    ensures forall row, col :: !OpenCell(p, row, col)
    ensures !Percolates(p)
  {
    var g := seq(n, _ => seq(n, _ => false));
    OpenCountBlocked(g);
    Percolation(n, g, 0, [])
  }

  /** `isOpen`: a site outside the grid is an illegal argument. */
  function IsOpen(p: Percolation, row: int, col: int): (r: Result<bool>)
    requires Valid(p)
    ensures r.Err? <==> !IsValidSite(p.size, row, col)
    ensures r.Err? ==> r.error == IllegalArgument
    ensures r.Ok? ==> (r.value <==> OpenCell(p, row, col))
  {
    if !IsValidSite(p.size, row, col) then Err(IllegalArgument) else Ok(p.grid[row - 1][col - 1])
  }

  /** `isFull`: a site outside the grid is an illegal argument; otherwise, is its node connected to the top? */
  function IsFull(p: Percolation, row: int, col: int): (r: Result<bool>)
    requires Valid(p)
    ensures r.Err? <==> !IsValidSite(p.size, row, col)
    ensures r.Err? ==> r.error == IllegalArgument
    ensures r.Ok? ==> (r.value <==> Connected(p.unions, 0, MapTo1DArray(p.size, row, col)))
  {
    if !IsValidSite(p.size, row, col) then Err(IllegalArgument)
    else Ok(Connected(p.unions, 0, MapTo1DArray(p.size, row, col)))
  }

  /** `numberOfOpenSites`. */
  function NumberOfOpenSites(p: Percolation): (n: nat)
    requires Valid(p)
    ensures n == OpenCount(p.grid)
  {
    p.openSites
  }

  /**
   * `percolates`: are the virtual top and bottom connected? Only once some
   * union has joined a site to each of them.
   */
  function Percolates(p: Percolation): (r: bool)
    ensures r ==> !Untouched(p.unions, 0) && !Untouched(p.unions, Bottom(p.size))
  {
    TouchesBothEnds(p.unions, Bottom(p.size));
    Connected(p.unions, 0, Bottom(p.size))
  }

  /** Connecting the top to a distinct node takes unions that mention both. */
  lemma TouchesBothEnds(us: seq<Union>, bottom: int)
    requires bottom > 0
    ensures Connected(us, 0, bottom) ==> !Untouched(us, 0) && !Untouched(us, bottom)
  {
    if Untouched(us, 0) {
      UntouchedIsAlone(us, bottom, 0);
    }
    if Untouched(us, bottom) {
      UntouchedIsAlone(us, 0, bottom);
    }
  }

  /** Mark a blocked site open and count it; nothing else changes. */
  function MarkOpen(p: Percolation, row: int, col: int): (p': Percolation)
    requires Valid(p) && IsValidSite(p.size, row, col) && !OpenCell(p, row, col)
    ensures Valid(p') && p'.size == p.size && p'.unions == p.unions
    ensures p'.openSites == p.openSites + 1
    ensures OpenCell(p', row, col)
    ensures forall r, c :: (r, c) != (row, col) ==> OpenCell(p', r, c) == OpenCell(p, r, c)
  {
    var p' := p.(grid := p.grid[row - 1 := p.grid[row - 1][col - 1 := true]], openSites := p.openSites + 1);
    MarkedOpen(p, row, col, p');
    p'
  }

  /** The board `MarkOpen` builds is valid and has exactly one more open site. */
  lemma MarkedOpen(p: Percolation, row: int, col: int, p': Percolation)
    requires Valid(p) && IsValidSite(p.size, row, col) && !OpenCell(p, row, col)
    requires p' == p.(grid := p.grid[row - 1 := p.grid[row - 1][col - 1 := true]], openSites := p.openSites + 1)
    ensures Valid(p')
    ensures forall r, c :: OpenCell(p', r, c) == (OpenCell(p, r, c) || (r, c) == (row, col))
  {
    var line := p.grid[row - 1][col - 1 := true];
    assert p'.openSites == OpenCount(p'.grid) by {
      OpenCountUpdate(p.grid, row - 1, line);
      assert RowOpen(line) == RowOpen(p.grid[row - 1]) + 1;
    }
    assert forall r, c :: OpenCell(p', r, c) == (OpenCell(p, r, c) || (r, c) == (row, col));
    EndpointsGrow(p, p');
  }

  /** Opening more sites keeps every endpoint an endpoint. */
  lemma EndpointsGrow(p: Percolation, p': Percolation)
    requires p'.size == p.size && forall r, c :: OpenCell(p, r, c) ==> OpenCell(p', r, c)
    ensures forall k :: Endpoint(p, k) ==> Endpoint(p', k)
  {
  }

  /** Unions between endpoints keep a grid valid. */
  lemma ValidAppend(p: Percolation, js: seq<Union>)
    requires Valid(p) && forall e :: e in js ==> Endpoint(p, e.0) && Endpoint(p, e.1)
    ensures Valid(p.(unions := p.unions + js))
  {
    var p' := p.(unions := p.unions + js);
    assert forall k :: Endpoint(p', k) == Endpoint(p, k);
    forall i | 0 <= i < |p'.unions| ensures Endpoint(p', p'.unions[i].0) && Endpoint(p', p'.unions[i].1) {
      if i >= |p.unions| {
        assert p'.unions[i] in js;
      }
    }
  }

  /** Orthogonal neighbours: one step along a row or a column. */
  predicate Adjacent(row: int, col: int, r2: int, c2: int) {
    || (row == r2 && (col - c2 == 1 || c2 - col == 1))
    || (col == c2 && (row - r2 == 1 || r2 - row == 1))
  }

  /** `connect`: the union of `curr` with the site `(adjRow, adjCol)`, made only when that site is in the grid and open. */
  function Connect(p: Percolation, curr: int, adjRow: int, adjCol: int): (r: seq<Union>)
    ensures |r| <= 1 && (r != [] <==> OpenCell(p, adjRow, adjCol))
    ensures r != [] ==> r[0].0 == curr && 1 <= r[0].1 <= p.size * p.size
  {
    if OpenCell(p, adjRow, adjCol) then
      MapTo1DArrayRange(p.size, adjRow, adjCol);
      [(curr, MapTo1DArray(p.size, adjRow, adjCol))]
    else
      []
  }

  /** The unions, in order, that opening `(row, col)` makes: its neighbours below, above, right and left, then the virtual nodes. */
  function Joins(p: Percolation, row: int, col: int): seq<Union> {
    var curr := MapTo1DArray(p.size, row, col);
    var top := if row == 1 then [(curr, 0)] else [];
    var bottom := if row == p.size then [(curr, Bottom(p.size))] else [];
    Connect(p, curr, row + 1, col) + Connect(p, curr, row - 1, col) + Connect(p, curr, row, col + 1) + Connect(p, curr, row, col - 1)
      + top + bottom
  }

  /** A site's node is in `connect`'s union exactly when it is the open site asked about. */
  lemma ConnectMentions(p: Percolation, curr: int, adjRow: int, adjCol: int, r2: int, c2: int)
    requires IsValidSite(p.size, r2, c2)
    ensures (curr, MapTo1DArray(p.size, r2, c2)) in Connect(p, curr, adjRow, adjCol) <==>
              adjRow == r2 && adjCol == c2 && OpenCell(p, r2, c2)
  {
    if IsValidSite(p.size, adjRow, adjCol) {
      MapTo1DArrayInjective(p.size, adjRow, adjCol, r2, c2);
      MapTo1DArrayRange(p.size, adjRow, adjCol);
    }
  }

  /** A site's node is among the unions opening `(row, col)` makes exactly when it is an open neighbour. */
  lemma JoinsMention(p: Percolation, row: int, col: int, r2: int, c2: int)
    requires IsValidSite(p.size, row, col) && IsValidSite(p.size, r2, c2)
    ensures (MapTo1DArray(p.size, row, col), MapTo1DArray(p.size, r2, c2)) in Joins(p, row, col) <==>
              Adjacent(row, col, r2, c2) && OpenCell(p, r2, c2)
  {
    var curr := MapTo1DArray(p.size, row, col);
    var x := (curr, MapTo1DArray(p.size, r2, c2));
    MapTo1DArrayRange(p.size, r2, c2);
    JoinsSiteNodes(p, row, col, x.1);
    ConnectMentions(p, curr, row + 1, col, r2, c2);
    ConnectMentions(p, curr, row - 1, col, r2, c2);
    ConnectMentions(p, curr, row, col + 1, r2, c2);
    ConnectMentions(p, curr, row, col - 1, r2, c2);
    AdjacentCases(x in Connect(p, curr, row + 1, col), x in Connect(p, curr, row - 1, col),
                  x in Connect(p, curr, row, col + 1), x in Connect(p, curr, row, col - 1),
                  OpenCell(p, r2, c2), row, col, r2, c2);
  }

  /** A union with a node other than the virtual ones comes from one of the four neighbour tests. */
  lemma JoinsSiteNodes(p: Percolation, row: int, col: int, n: int)
    requires n != 0 && n != Bottom(p.size)
    ensures var curr := MapTo1DArray(p.size, row, col);
      (curr, n) in Joins(p, row, col) <==>
        || (curr, n) in Connect(p, curr, row + 1, col) || (curr, n) in Connect(p, curr, row - 1, col)
        || (curr, n) in Connect(p, curr, row, col + 1) || (curr, n) in Connect(p, curr, row, col - 1)
  {
    var curr := MapTo1DArray(p.size, row, col);
    var top := if row == 1 then [(curr, 0)] else [];
    var bottom := if row == p.size then [(curr, Bottom(p.size))] else [];
    InSixParts((curr, n), Connect(p, curr, row + 1, col), Connect(p, curr, row - 1, col),
      Connect(p, curr, row, col + 1), Connect(p, curr, row, col - 1), top, bottom);
  }

  lemma InSixParts<X>(x: X, a: seq<X>, b: seq<X>, c: seq<X>, d: seq<X>, top: seq<X>, bottom: seq<X>)
    requires x !in top && x !in bottom
    ensures x in a + b + c + d + top + bottom <==> x in a || x in b || x in c || x in d
  {
  }

  /** The four neighbour tests between them cover exactly the open orthogonal neighbours. */
  lemma AdjacentCases(inA: bool, inB: bool, inC: bool, inD: bool, open: bool, row: int, col: int, r2: int, c2: int)
    requires inA <==> row + 1 == r2 && col == c2 && open
    requires inB <==> row - 1 == r2 && col == c2 && open
    requires inC <==> row == r2 && col + 1 == c2 && open
    requires inD <==> row == r2 && col - 1 == c2 && open
    ensures (inA || inB || inC || inD) <==> Adjacent(row, col, r2, c2) && open
  {
  }

  /**
   * The unions opening a site makes are exactly: the site with each open
   * orthogonal neighbour, with the virtual top when it is in the first row,
   * and with the virtual bottom when it is in the last row.
   */
  lemma JoinsAreNeighbours(p: Percolation, row: int, col: int)
    requires IsValidSite(p.size, row, col)
    ensures forall e :: e in Joins(p, row, col) ==> e.0 == MapTo1DArray(p.size, row, col) && Endpoint(p, e.1)
    ensures forall r2, c2 :: IsValidSite(p.size, r2, c2) ==>
              ((MapTo1DArray(p.size, row, col), MapTo1DArray(p.size, r2, c2)) in Joins(p, row, col) <==>
                 Adjacent(row, col, r2, c2) && OpenCell(p, r2, c2))
    ensures (MapTo1DArray(p.size, row, col), 0) in Joins(p, row, col) <==> row == 1
    ensures (MapTo1DArray(p.size, row, col), Bottom(p.size)) in Joins(p, row, col) <==> row == p.size
  {
    JoinsShape(p, row, col);
    forall r2, c2 | IsValidSite(p.size, r2, c2)
      ensures (MapTo1DArray(p.size, row, col), MapTo1DArray(p.size, r2, c2)) in Joins(p, row, col) <==>
                Adjacent(row, col, r2, c2) && OpenCell(p, r2, c2)
    {
      JoinsMention(p, row, col, r2, c2);
    }
  }

  /** Every union opening `(row, col)` makes starts at its node; the virtual nodes are joined by row. */
  lemma JoinsShape(p: Percolation, row: int, col: int)
    requires IsValidSite(p.size, row, col)
    ensures forall e :: e in Joins(p, row, col) ==> e.0 == MapTo1DArray(p.size, row, col) && Endpoint(p, e.1)
    ensures (MapTo1DArray(p.size, row, col), 0) in Joins(p, row, col) <==> row == 1
    ensures (MapTo1DArray(p.size, row, col), Bottom(p.size)) in Joins(p, row, col) <==> row == p.size
  {
    var curr := MapTo1DArray(p.size, row, col);
    var bot := Bottom(p.size);
    var neighbours := Connect(p, curr, row + 1, col) + Connect(p, curr, row - 1, col)
      + Connect(p, curr, row, col + 1) + Connect(p, curr, row, col - 1);
    assert bot != 0 by {
      Grid.MulNonNegative(p.size, p.size);
    }
    NeighbourEnds(p, curr, row, col);
    var all := neighbours + (if row == 1 then [(curr, 0)] else []) + (if row == p.size then [(curr, bot)] else []);
    assert Joins(p, row, col) == all;
    JoinsSplit(neighbours, curr, bot, row == 1, row == p.size);
    JoinsEnds(p, neighbours, curr, all);
  }

  /** The four neighbour tests join `curr` only to open sites' nodes. */
  lemma NeighbourEnds(p: Percolation, curr: int, row: int, col: int)
    ensures forall e: Union :: e in Connect(p, curr, row + 1, col) + Connect(p, curr, row - 1, col)
                                  + Connect(p, curr, row, col + 1) + Connect(p, curr, row, col - 1) ==>
              e.0 == curr && Endpoint(p, e.1) && e.1 != 0 && e.1 != Bottom(p.size)
  {
    ConnectStarts(p, curr, row + 1, col);
    ConnectStarts(p, curr, row - 1, col);
    ConnectStarts(p, curr, row, col + 1);
    ConnectStarts(p, curr, row, col - 1);
  }

  /** Adding unions from `curr` to the virtual nodes keeps every union's far end an endpoint. */
  lemma JoinsEnds(p: Percolation, neighbours: seq<Union>, curr: int, all: seq<Union>)
    requires forall e :: e in neighbours ==> e.0 == curr && Endpoint(p, e.1)
    requires forall e :: e in all ==> e in neighbours || e == (curr, 0) || e == (curr, Bottom(p.size))
    ensures forall e :: e in all ==> e.0 == curr && Endpoint(p, e.1)
  {
    assert Endpoint(p, 0) && Endpoint(p, Bottom(p.size));
  }

  /** Which virtual unions the list holds, when the neighbour unions avoid both virtual nodes. */
  lemma JoinsSplit(neighbours: seq<Union>, curr: int, bot: int, first: bool, last: bool)
    requires bot != 0
    requires forall e :: e in neighbours ==> e.1 != 0 && e.1 != bot
    ensures var all := neighbours + (if first then [(curr, 0)] else []) + (if last then [(curr, bot)] else []);
            && ((curr, 0) in all <==> first)
            && ((curr, bot) in all <==> last)
            && (forall e :: e in all ==> e in neighbours || e == (curr, 0) || e == (curr, bot))
  {
  }

  /** `connect`'s union, if made, starts at `curr` and ends at an open site's node, not a virtual one. */
  lemma ConnectStarts(p: Percolation, curr: int, adjRow: int, adjCol: int)
    ensures forall e :: e in Connect(p, curr, adjRow, adjCol) ==> e.0 == curr && Endpoint(p, e.1) && e.1 != 0 && e.1 != Bottom(p.size)
  {
    if IsValidSite(p.size, adjRow, adjCol) {
      MapTo1DArrayRange(p.size, adjRow, adjCol);
    }
  }

  /** Record the unions that join the newly opened `(row, col)` to its neighbours. */
  function JoinNeighbours(p: Percolation, row: int, col: int): (p': Percolation)
    requires Valid(p) && OpenCell(p, row, col)
    ensures Valid(p') && p'.size == p.size && p'.grid == p.grid && p'.openSites == p.openSites
    ensures p'.unions == p.unions + Joins(p, row, col)
  {
    JoinsShape(p, row, col);
    assert Endpoint(p, MapTo1DArray(p.size, row, col));
    ValidAppend(p, Joins(p, row, col));
    p.(unions := p.unions + Joins(p, row, col))
  }

  /**
   * `open`: a site outside the grid is an illegal argument; an open site is
   * left alone; a blocked one is opened, counted, and joined to its neighbours.
   */
  function Open(p: Percolation, row: int, col: int): (r: Result<Percolation>)
    requires Valid(p)
    ensures r.Err? <==> !IsValidSite(p.size, row, col)
    ensures r.Err? ==> r.error == IllegalArgument
    ensures r.Ok? ==> Valid(r.value) && r.value.size == p.size
    ensures r.Ok? && OpenCell(p, row, col) ==> r.value == p
    ensures r.Ok? && !OpenCell(p, row, col) ==> r.value.openSites == p.openSites + 1
    ensures r.Ok? ==> OpenCell(r.value, row, col)
    ensures r.Ok? ==> forall r2, c2 :: (r2, c2) != (row, col) ==> OpenCell(r.value, r2, c2) == OpenCell(p, r2, c2)
    ensures r.Ok? && !OpenCell(p, row, col) ==> r.value.unions == p.unions + Joins(p, row, col)
  {
    if !IsValidSite(p.size, row, col) then Err(IllegalArgument)
    else if p.grid[row - 1][col - 1] then Ok(p)
    else
      var p1 := MarkOpen(p, row, col);
      JoinsIgnoreSite(p, p1, row, col);
      var p2 := JoinNeighbours(p1, row, col);
      assert forall r2, c2 :: OpenCell(p2, r2, c2) == OpenCell(p1, r2, c2);
      Ok(p2)
  }

  /** The unions opening `(row, col)` makes do not depend on whether that site itself is open. */
  lemma JoinsIgnoreSite(p: Percolation, p1: Percolation, row: int, col: int)
    requires p1.size == p.size
    requires forall r, c :: (r, c) != (row, col) ==> OpenCell(p1, r, c) == OpenCell(p, r, c)
    ensures Joins(p1, row, col) == Joins(p, row, col)
  {
    var curr := MapTo1DArray(p.size, row, col);
    assert OpenCell(p1, row + 1, col) == OpenCell(p, row + 1, col);
    assert OpenCell(p1, row - 1, col) == OpenCell(p, row - 1, col);
    assert OpenCell(p1, row, col + 1) == OpenCell(p, row, col + 1);
    assert OpenCell(p1, row, col - 1) == OpenCell(p, row, col - 1);
  }

  /** A blocked site is never full: no union mentions its node. */
  lemma BlockedNeverFull(p: Percolation, row: int, col: int)
    requires Valid(p) && IsValidSite(p.size, row, col) && !OpenCell(p, row, col)
    ensures IsFull(p, row, col) == Ok(false)
  {
    var k := MapTo1DArray(p.size, row, col);
    MapTo1DArrayRange(p.size, row, col);
    forall i | 0 <= i < |p.unions| ensures p.unions[i].0 != k && p.unions[i].1 != k {
      forall r, c | OpenCell(p, r, c) ensures MapTo1DArray(p.size, r, c) != k {
        MapTo1DArrayInjective(p.size, r, c, row, col);
      }
    }
    UntouchedIsAlone(p.unions, 0, k);
  }

  /** Opening sites never empties a full site nor stops the system percolating. */
  lemma OpenKeepsConnections(p: Percolation, row: int, col: int, a: int, b: int)
    requires Valid(p) && IsValidSite(p.size, row, col) && Connected(p.unions, a, b)
    ensures Open(p, row, col).Ok? && Connected(Open(p, row, col).value.unions, a, b)
  {
    if !OpenCell(p, row, col) {
      ConnectedGrows(p.unions, Joins(p, row, col), a, b);
    }
  }

  /** Opening a blocked site in the first row makes it full. */
  lemma OpenTopRowIsFull(p: Percolation, col: int)
    requires Valid(p) && IsValidSite(p.size, 1, col) && !OpenCell(p, 1, col)
    ensures Open(p, 1, col).Ok? && IsFull(Open(p, 1, col).value, 1, col) == Ok(true)
  {
    var curr := MapTo1DArray(p.size, 1, col);
    var js := Joins(p, 1, col);
    JoinsShape(p, 1, col);
    var us := p.unions + js;
    assert (curr, 0) in us;
    MemberConnects(us, curr, 0);
    var r := Open(p, 1, col);
    assert r.Ok? && r.value.unions == us && r.value.size == p.size;
  }

  /** A one-by-one grid percolates as soon as its only site is open. */
  lemma SingleSitePercolates(p: Percolation)
    requires Valid(p) && p.size == 1 && !OpenCell(p, 1, 1)
    ensures Open(p, 1, 1).Ok? && Percolates(Open(p, 1, 1).value)
  {
    var js := Joins(p, 1, 1);
    JoinsShape(p, 1, 1);
    var us := p.unions + js;
    assert (1, 0) in us && (1, Bottom(1)) in us;
    MemberConnects(us, 1, 0);
    MemberConnects(us, 1, Bottom(1));
    ConnectedTransitive(us, 0, 1, Bottom(1));
    assert Open(p, 1, 1).value.unions == us;
  }
}

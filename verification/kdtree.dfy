/**
 * A 2-d tree of points. Each node splits on one axis, `x` at even depth and
 * `y` at odd depth; points smaller on that axis go left, larger go right,
 * and points equal to the node's key on that axis are kept in the node's own
 * list, once each. Coordinates are integers here (`Point2D` holds doubles).
 */
module KdTree {
  import opened Wrappers

  datatype Point = Point(x: int, y: int)

  /** `Double.compare` on two coordinates: -1, 0 or 1. */
  function CompareCoord(a: int, b: int): (r: int)
    ensures r == 0 <==> a == b
    ensures r < 0 <==> a < b
  {
    if a < b then -1 else if a > b then 1 else 0
  }

  /** The coordinate a level splits on: `x` at level 0, `y` otherwise. */
  function Coord(level: int, p: Point): int {
    if level == 0 then p.x else p.y
  }

  /** `getComparator(level).compare(a, b)`: `X_ORDER` at level 0, `Y_ORDER` otherwise. */
  function Compare(level: int, a: Point, b: Point): (r: int)
    ensures r == 0 <==> Coord(level, a) == Coord(level, b)
    ensures r < 0 <==> Coord(level, a) < Coord(level, b)
  {
    if level == 0 then CompareCoord(a.x, b.x) else CompareCoord(a.y, b.y)
  }

  /** The number of levels the axes cycle through (`maxLevel`). */
  const MAX_LEVEL: int := 2

  /** `getNextLevel`: the root (below level `-1`) is level 0; below that the levels alternate. */
  function GetNextLevel(level: int): (r: int)
    ensures 0 <= r < MAX_LEVEL
    ensures level < 0 ==> r == 0
    ensures 0 <= level ==> r != level % MAX_LEVEL
  {
    if level < 0 then 0 else (level + 1) % MAX_LEVEL
  }

  /** A node with its key, the points equal to it on the node's axis, the subtree size and the level; `Nil` is `null`. */
  datatype Tree = Nil | Node(key: Point, values: seq<Point>, size: int, level: int, left: Tree, right: Tree)

  /** `size(node)`. */
  function Size(t: Tree): int {
    if t.Nil? then 0 else t.size
  }

  /** The points of a list, as a set. */
  function PointSet(s: seq<Point>): set<Point> {
    set p | p in s
  }

  /** The points stored anywhere in a tree. */
  function Points(t: Tree): set<Point> {
    if t.Nil? then {} else Points(t.left) + PointSet(t.values) + Points(t.right)
  }

  /** No point twice. */
  predicate Distinct(s: seq<Point>) {
    forall i, j :: 0 <= i < j < |s| ==> s[i] != s[j]
  }

  /**
   * The shape `insert` builds and keeps, for a subtree whose root is at
   * `level`: children one level on; smaller points on the node's axis to the
   * left, larger to the right, equal ones, each once, in the node's list,
   * which starts with the key; and sizes that add up.
   */
  ghost predicate Valid(t: Tree, level: int) {
    t.Node? ==>
      && t.level == level
      && |t.values| > 0 && t.values[0] == t.key
      && Distinct(t.values)
      && (forall i :: 0 <= i < |t.values| ==> Coord(level, t.values[i]) == Coord(level, t.key))
      && (forall q :: q in Points(t.left) ==> Coord(level, q) < Coord(level, t.key))
      && (forall q :: q in Points(t.right) ==> Coord(level, q) > Coord(level, t.key))
      && t.size == Size(t.left) + Size(t.right) + |t.values|
      && Valid(t.left, GetNextLevel(level))
      && Valid(t.right, GetNextLevel(level))
  }

  /** `Node.addPoint`: a point already in the list is not added again. */
  function AddPoint(values: seq<Point>, p: Point): (r: seq<Point>)
    ensures Distinct(values) ==> Distinct(r)
    ensures PointSet(r) == PointSet(values) + {p}
    ensures |r| == if p in values then |values| else |values| + 1
    ensures r[..|values|] == values
  {
    if p in values then values else values + [p]
  }

  /** `insert(node, point, level)`, where `level` is the level of the parent (`-1` above the root). */
  function InsertAt(t: Tree, p: Point, parentLevel: int): (r: Tree)
    requires Valid(t, GetNextLevel(parentLevel))
    ensures Valid(r, GetNextLevel(parentLevel))
    ensures Points(r) == Points(t) + {p}
    ensures r.Node?
  {
    var level := GetNextLevel(parentLevel);
    if t.Nil? then Node(p, [p], 1, level, Nil, Nil)
    else
      var c := Compare(t.level, p, t.key);
      if c < 0 then
        var left := InsertAt(t.left, p, t.level);
        var r := Node(t.key, t.values, Size(left) + Size(t.right) + |t.values|, t.level, left, t.right);
        InsertedLeft(t, level, p, left, r);
        r
      else if c > 0 then
        var right := InsertAt(t.right, p, t.level);
        var r := Node(t.key, t.values, Size(t.left) + Size(right) + |t.values|, t.level, t.left, right);
        InsertedRight(t, level, p, right, r);
        r
      else
        var values := AddPoint(t.values, p);
        var r := t.(values := values, size := Size(t.left) + Size(t.right) + |values|);
        InsertedHere(t, level, p, r);
        r
  }

  /** A node whose left child has taken in a point smaller on the node's axis is still valid. */
  lemma InsertedLeft(t: Tree, level: int, p: Point, left: Tree, r: Tree)
    requires 0 <= level < MAX_LEVEL
    requires Valid(t, level) && t.Node? && Coord(level, p) < Coord(level, t.key)
    requires Valid(left, GetNextLevel(level)) && Points(left) == Points(t.left) + {p}
    requires r == Node(t.key, t.values, Size(left) + Size(t.right) + |t.values|, t.level, left, t.right)
    ensures Valid(r, level) && Points(r) == Points(t) + {p}
  {
    assert Valid(r, level) by {
      SideTakesPoint(Points(t.left), Points(left), p, level, t.key, true);
    }
    InsertedLeftPoints(t, p, left, r);
  }

  lemma InsertedLeftPoints(t: Tree, p: Point, left: Tree, r: Tree)
    requires t.Node? && Points(left) == Points(t.left) + {p}
    requires r == Node(t.key, t.values, Size(left) + Size(t.right) + |t.values|, t.level, left, t.right)
    ensures Points(r) == Points(t) + {p}
  {
  }

  /** A node whose right child has taken in a point larger on the node's axis is still valid. */
  lemma InsertedRight(t: Tree, level: int, p: Point, right: Tree, r: Tree)
    requires 0 <= level < MAX_LEVEL
    requires Valid(t, level) && t.Node? && Coord(level, p) > Coord(level, t.key)
    requires Valid(right, GetNextLevel(level)) && Points(right) == Points(t.right) + {p}
    requires r == Node(t.key, t.values, Size(t.left) + Size(right) + |t.values|, t.level, t.left, right)
    ensures Valid(r, level) && Points(r) == Points(t) + {p}
  {
    assert Valid(r, level) by {
      SideTakesPoint(Points(t.right), Points(right), p, level, t.key, false);
    }
    InsertedRightPoints(t, p, right, r);
  }

  lemma InsertedRightPoints(t: Tree, p: Point, right: Tree, r: Tree)
    requires t.Node? && Points(right) == Points(t.right) + {p}
    requires r == Node(t.key, t.values, Size(t.left) + Size(right) + |t.values|, t.level, t.left, right)
    ensures Points(r) == Points(t) + {p}
  {
  }

  /** Adding to one side of a node a point that belongs on that side keeps the side on its side. */
  lemma SideTakesPoint(before: set<Point>, after: set<Point>, p: Point, level: int, key: Point, smaller: bool)
    requires after == before + {p}
    requires smaller ==> Coord(level, p) < Coord(level, key) && forall q :: q in before ==> Coord(level, q) < Coord(level, key)
    requires !smaller ==> Coord(level, p) > Coord(level, key) && forall q :: q in before ==> Coord(level, q) > Coord(level, key)
    ensures smaller ==> forall q :: q in after ==> Coord(level, q) < Coord(level, key)
    ensures !smaller ==> forall q :: q in after ==> Coord(level, q) > Coord(level, key)
  {
  }

  /** A node whose list has taken in a point level with its key is still valid. */
  lemma InsertedHere(t: Tree, level: int, p: Point, r: Tree)
    requires 0 <= level < MAX_LEVEL
    requires Valid(t, level) && t.Node? && Coord(level, p) == Coord(level, t.key)
    requires r == t.(values := AddPoint(t.values, p), size := Size(t.left) + Size(t.right) + |AddPoint(t.values, p)|)
    ensures Valid(r, level) && Points(r) == Points(t) + {p}
  {
    var values := AddPoint(t.values, p);
    assert values[0] == t.values[0];
    assert forall i :: 0 <= i < |values| ==> values[i] in t.values || values[i] == p;
  }

  /** `contains(node, point)`: follow the comparisons down, then look through the node's list. */
  function ContainsAt(t: Tree, p: Point): bool {
    if t.Nil? then false
    else
      var c := Compare(t.level, p, t.key);
      if c < 0 then ContainsAt(t.left, p)
      else if c > 0 then ContainsAt(t.right, p)
      else p in t.values
  }

  /** The search path finds a point exactly when the tree holds it. */
  lemma {:induction false} ContainsAtIsMembership(t: Tree, level: int, p: Point)
    requires Valid(t, level)
    ensures ContainsAt(t, p) <==> p in Points(t)
  {
    if t.Node? {
      if Compare(t.level, p, t.key) < 0 {
        ContainsAtIsMembership(t.left, GetNextLevel(level), p);
      } else if Compare(t.level, p, t.key) > 0 {
        ContainsAtIsMembership(t.right, GetNextLevel(level), p);
      } else {
        assert p !in Points(t.left) && p !in Points(t.right);
      }
    }
  }

  /** A list of distinct points has as many elements as it has distinct points. */
  lemma {:induction false} DistinctCard(s: seq<Point>)
    requires Distinct(s)
    ensures |PointSet(s)| == |s|
  {
    if s != [] {
      var init := s[..|s| - 1];
      DistinctCard(init);
      assert PointSet(s) == PointSet(init) + {s[|s| - 1]};
    }
  }

  /** Every stored point is counted once: the size is the number of distinct points. */
  lemma {:induction false} SizeCountsPoints(t: Tree, level: int)
    requires Valid(t, level)
    ensures Size(t) == |Points(t)|
  {
    if t.Node? {
      SizeCountsPoints(t.left, GetNextLevel(level));
      SizeCountsPoints(t.right, GetNextLevel(level));
      DistinctCard(t.values);
      var here := PointSet(t.values);
      assert Points(t.left) !! here;
      assert Points(t.right) !! here;
      assert Points(t.left) !! Points(t.right);
    }
  }

  /** `inOrder`: the left subtree, the node's list, then the right subtree. */
  function InOrder(t: Tree): (points: seq<Point>) {
    if t.Nil? then [] else InOrder(t.left) + t.values + InOrder(t.right)
  }

  /** `inOrder` lists every stored point, each exactly once. */
  lemma {:induction false} InOrderListsEachOnce(t: Tree, level: int)
    requires Valid(t, level)
    ensures Distinct(InOrder(t))
    ensures forall p :: p in InOrder(t) <==> p in Points(t)
    ensures |InOrder(t)| == Size(t)
  {
    if t.Node? {
      InOrderListsEachOnce(t.left, GetNextLevel(level));
      InOrderListsEachOnce(t.right, GetNextLevel(level));
      var a, b, c := InOrder(t.left), t.values, InOrder(t.right);
      forall i, j | 0 <= i < j < |a + b + c| ensures (a + b + c)[i] != (a + b + c)[j] {
        var s := a + b + c;
        if j < |a| || i >= |a| + |b| || (|a| <= i && j < |a| + |b|) {
        } else {
          assert s[i] in Points(t.left) + PointSet(t.values) && s[j] in PointSet(t.values) + Points(t.right);
        }
      }
    }
  }

  /** The set of points: the root and how many points it holds. */
  datatype KdTree = KdTree(root: Tree)

  ghost predicate ValidTree(k: KdTree) {
    Valid(k.root, GetNextLevel(-1))
  }

  /** `KdTree()`: no points. */
  function New(): (k: KdTree)
    ensures ValidTree(k) && Points(k.root) == {}
  {
    KdTree(Nil)
  }

  /** `size()`: the number of distinct points inserted. */
  function SizeOf(k: KdTree): (n: int)
    requires ValidTree(k)
    ensures n == |Points(k.root)|
  {
    SizeCountsPoints(k.root, GetNextLevel(-1));
    Size(k.root)
  }

  function IsEmpty(k: KdTree): (b: bool)
    requires ValidTree(k)
    ensures b <==> Points(k.root) == {}
  {
    SizeOf(k) == 0
  }

  /** `insert(p)`: a `null` point is an illegal argument; otherwise the point joins the set. */
  function Insert(k: KdTree, p: Option<Point>): (r: Result<KdTree>)
    requires ValidTree(k)
    ensures r.Err? <==> p.None?
    ensures r.Err? ==> r.error == IllegalArgument
    ensures r.Ok? ==> ValidTree(r.value) && Points(r.value.root) == Points(k.root) + {p.value}
    ensures r.Ok? ==> r.value.root.level == 0
  {
    if p.None? then Err(IllegalArgument) else Ok(KdTree(InsertAt(k.root, p.value, -1)))
  }

  /** `contains(p)`: a `null` point is an illegal argument; otherwise, was the point inserted? */
  function Contains(k: KdTree, p: Option<Point>): (r: Result<bool>)
    requires ValidTree(k)
    ensures r.Err? <==> p.None?
    ensures r.Err? ==> r.error == IllegalArgument
    ensures r.Ok? ==> (r.value <==> p.value in Points(k.root))
  {
    if p.None? then Err(IllegalArgument)
    else
      ContainsAtIsMembership(k.root, GetNextLevel(-1), p.value);
      Ok(ContainsAt(k.root, p.value))
  }

  /** After `insert(p)`, `contains(p)` holds, and inserting a point already there leaves the size alone. */
  lemma InsertThenContains(k: KdTree, p: Point)
    requires ValidTree(k)
    ensures Contains(Insert(k, Some(p)).value, Some(p)) == Ok(true)
    ensures SizeOf(Insert(k, Some(p)).value) == SizeOf(k) + if p in Points(k.root) then 0 else 1
  {
    var k' := Insert(k, Some(p)).value;
    assert Points(k'.root) == Points(k.root) + {p};
    if p in Points(k.root) {
      assert Points(k'.root) == Points(k.root);
    } else {
      assert |Points(k'.root)| == |Points(k.root)| + 1;
    }
  }
}

/**
 * The point quadtree of Spatial/Quadtree.cpp: a recursive index of integer
 * pixel points over a box.  A node owns a box, a list of points and either no
 * children or exactly four, one per quadrant.
 *
 * Each node is owned by exactly one parent (`TUniquePtr`), so nodes are
 * modelled as values: a change the source makes in place to the node it has
 * walked down to becomes a replacement along the path that led there.  The
 * tree object itself is the class `Quadtree`, whose `root` field the
 * operations update.
 */
module Quadtree {

  /** `FIntPoint`. */
  datatype Point = Point(x: int, y: int)

  /** `FBox2D`, given by its min and max corners. */
  datatype Box = Box(minX: real, minY: real, maxX: real, maxY: real)
  {
    function CenterX(): real { (minX + maxX) / 2.0 }
    function CenterY(): real { (minY + maxY) / 2.0 }
  }

  /**
   * Whether `FBox2D::IsInside` counts a point on the edge of the box as
   * inside.  That is decided by the engine, so it is a parameter here.
   */
  datatype EdgeRule = ExcludesEdges | IncludesEdges

  /** `FBox2D::IsInside` under the given edge rule. */
  predicate IsInside(b: Box, p: Point, rule: EdgeRule)
  {
    var x, y := p.x as real, p.y as real;
    match rule
    case ExcludesEdges => b.minX < x < b.maxX && b.minY < y < b.maxY
    case IncludesEdges => b.minX <= x <= b.maxX && b.minY <= y <= b.maxY
  }

  /** The point lies in the closed box. */
  predicate InClosedBox(b: Box, p: Point)
  {
    IsInside(b, p, IncludesEdges)
  }

  /** Distance from `v` to the interval [lo, hi] along one axis. */
  function AxisDistance(v: real, lo: real, hi: real): real
  {
    if v < lo then lo - v else if v > hi then v - hi else 0.0
  }

  /** `FBox2D::ComputeSquaredDistanceToPoint`. */
  function SquaredDistanceToPoint(b: Box, p: Point): (d: real)
    ensures d >= 0.0
    ensures InClosedBox(b, p) ==> d == 0.0
  {
    var dx := AxisDistance(p.x as real, b.minX, b.maxX);
    var dy := AxisDistance(p.y as real, b.minY, b.maxY);
    dx * dx + dy * dy
  }

  /** `FVector::DistSquared` of the two points placed in the plane z = 0. */
  function DistSquared(p: Point, q: Point): (d: real)
    ensures d >= 0.0
    ensures d == 0.0 <==> p == q
  {
    var dx, dy := (p.x - q.x) as real, (p.y - q.y) as real;
    SquareIsPositive(dx);
    SquareIsPositive(dy);
    dx * dx + dy * dy
  }

  lemma SquareIsPositive(a: real)
    ensures a * a >= 0.0
    ensures a != 0.0 ==> a * a > 0.0
  {
    if a < 0.0 {
      assert a * a == (-a) * (-a);
    }
  }

  lemma SquareIsMonotonic(a: real, b: real)
    requires 0.0 <= a <= b
    ensures a * a <= b * b
  {
    assert a * a <= a * b;
    assert a * b <= b * b;
  }

  /**
   * The pruning test of the nearest-point search is sound: no point of a
   * closed box is nearer to `s` than the box itself.
   */
  lemma BoxDistanceIsLowerBound(b: Box, q: Point, s: Point)
    requires InClosedBox(b, q)
    ensures SquaredDistanceToPoint(b, s) <= DistSquared(q, s)
  {
    var sx, sy := s.x as real, s.y as real;
    var ex := if q.x >= s.x then (q.x - s.x) as real else (s.x - q.x) as real;
    var ey := if q.y >= s.y then (q.y - s.y) as real else (s.y - q.y) as real;
    SquareIsMonotonic(AxisDistance(sx, b.minX, b.maxX), ex);
    SquareIsMonotonic(AxisDistance(sy, b.minY, b.maxY), ey);
    assert ex * ex == (q.x - s.x) as real * (q.x - s.x) as real;
    assert ey * ey == (q.y - s.y) as real * (q.y - s.y) as real;
  }

  /**
   * `GetChildIndexForPoint`: bit 0 of the index says "right of the vertical
   * centre line", bit 1 says "below the horizontal one".  A point exactly on
   * a centre line goes to the higher-index side.
   */
  function ChildIndex(b: Box, p: Point): (i: nat)
    ensures i < 4
    ensures (i == 1 || i == 3) <==> p.x as real >= b.CenterX()
    ensures (i == 2 || i == 3) <==> p.y as real >= b.CenterY()
  {
    if (p.x as real) < b.CenterX() then
      (if (p.y as real) < b.CenterY() then 0 else 2)
    else
      (if (p.y as real) < b.CenterY() then 1 else 3)
  }

  /** The box `Subdivide` gives child `i`: the box quartered at its centre. */
  function Quadrant(b: Box, i: nat): Box
    requires i < 4
  {
    var cx, cy := b.CenterX(), b.CenterY();
    if i == 0 then Box(b.minX, b.minY, cx, cy)
    else if i == 1 then Box(cx, b.minY, b.maxX, cy)
    else if i == 2 then Box(b.minX, cy, cx, b.maxY)
    else Box(cx, cy, b.maxX, b.maxY)
  }

  /** A point of a closed box lies in the closed quadrant it is routed to. */
  lemma RoutedPointStaysInside(b: Box, p: Point)
    requires InClosedBox(b, p)
    ensures InClosedBox(Quadrant(b, ChildIndex(b, p)), p)
  {
  }

  /** `FQuadtreeNode`: an empty `children` sequence is four null child slots. */
  datatype Node = Node(bounds: Box, points: seq<Point>, children: seq<Node>)

  /** Every point held in the subtree, with its multiplicity. */
  function Contents(n: Node): multiset<Point>
    decreases n
  {
    multiset(n.points) + ChildrenContents(n.children)
  }

  function ChildrenContents(cs: seq<Node>): multiset<Point>
    decreases cs
  {
    if cs == [] then multiset{} else ChildrenContents(cs[..|cs| - 1]) + Contents(cs[|cs| - 1])
  }

  /**
   * The structural invariant every tree built by `Quadtree` keeps: a node has
   * no children or all four; a node with children holds no points itself;
   * child `i` covers quadrant `i` of its parent's box and holds only points
   * that `ChildIndex` routes to `i`.
   */
  ghost predicate WellFormed(n: Node)
    decreases n
  {
    || n.children == []
    || (&& |n.children| == 4
        && n.points == []
        && forall i | 0 <= i < 4 ::
             && n.children[i].bounds == Quadrant(n.bounds, i)
             && (forall q | q in Contents(n.children[i]) :: ChildIndex(n.bounds, q) == i)
             && WellFormed(n.children[i]))
  }

  /** Every point of the subtree lies in the node's closed box. */
  ghost predicate Contained(n: Node)
  {
    forall q | q in Contents(n) :: InClosedBox(n.bounds, q)
  }

  lemma {:induction false} ChildrenContentsMember(cs: seq<Node>, q: Point)
    ensures q in ChildrenContents(cs) <==> exists i | 0 <= i < |cs| :: q in Contents(cs[i])
    decreases cs
  {
    if cs != [] {
      var init := cs[..|cs| - 1];
      ChildrenContentsMember(init, q);
      if q in ChildrenContents(init) {
        var i :| 0 <= i < |init| && q in Contents(init[i]);
        assert cs[i] == init[i];
      }
      if exists i | 0 <= i < |cs| :: q in Contents(cs[i]) {
        var i :| 0 <= i < |cs| && q in Contents(cs[i]);
        if i < |cs| - 1 {
          assert init[i] == cs[i];
        }
      }
    }
  }

  lemma {:induction false} ChildrenContentsUpdate(cs: seq<Node>, i: nat, c: Node)
    requires i < |cs|
    ensures ChildrenContents(cs[i := c]) + Contents(cs[i]) == ChildrenContents(cs) + Contents(c)
    decreases cs
  {
    var init, last := cs[..|cs| - 1], cs[|cs| - 1];
    if i == |cs| - 1 {
      assert cs[i := c][..|cs| - 1] == init;
    } else {
      ChildrenContentsUpdate(init, i, c);
      assert cs[i := c][..|cs| - 1] == init[i := c];
      calc {
        ChildrenContents(cs[i := c]) + Contents(cs[i]);
        ChildrenContents(init[i := c]) + Contents(last) + Contents(init[i]);
        (ChildrenContents(init[i := c]) + Contents(init[i])) + Contents(last);
        ChildrenContents(init) + Contents(c) + Contents(last);
        ChildrenContents(cs) + Contents(c);
      }
    }
  }

  lemma ChildrenContentsOfFour(cs: seq<Node>)
    requires |cs| == 4
    ensures ChildrenContents(cs) == Contents(cs[0]) + Contents(cs[1]) + Contents(cs[2]) + Contents(cs[3])
  {
    assert cs[..3][..2] == cs[..2];
    assert cs[..2][..1] == cs[..1];
    assert cs[..1][..0] == [];
    assert ChildrenContents(cs[..1]) == Contents(cs[0]);
    assert ChildrenContents(cs[..2]) == Contents(cs[0]) + Contents(cs[1]);
    assert ChildrenContents(cs[..3]) == Contents(cs[0]) + Contents(cs[1]) + Contents(cs[2]);
  }

  /** In a well-formed tree every copy of `q` sits in the child `q` is routed to. */
  lemma RoutedCount(n: Node, q: Point)
    requires WellFormed(n) && n.children != []
    ensures Contents(n)[q] == Contents(n.children[ChildIndex(n.bounds, q)])[q]
  {
    ChildrenContentsOfFour(n.children);
    var i := ChildIndex(n.bounds, q);
    forall j | 0 <= j < 4 && j != i
      ensures Contents(n.children[j])[q] == 0
    {
    }
  }

  /** Containment passes from a well-formed node to each of its children. */
  lemma ContainedChild(n: Node, i: nat)
    requires WellFormed(n) && Contained(n) && n.children != [] && i < 4
    ensures Contained(n.children[i])
  {
    forall q | q in Contents(n.children[i])
      ensures InClosedBox(n.children[i].bounds, q)
    {
      ChildrenContentsMember(n.children, q);
      RoutedPointStaysInside(n.bounds, q);
    }
  }

  // ---------------------------------------------------------------------
  // Subdivide
  // ---------------------------------------------------------------------

  /** The points of `ps`, in order, that `ChildIndex` sends to quadrant `i`. */
  function PointsFor(b: Box, ps: seq<Point>, i: nat): (r: seq<Point>)
    ensures forall q | q in r :: ChildIndex(b, q) == i
  {
    if ps == [] then []
    else
      var last := ps[|ps| - 1];
      PointsFor(b, ps[..|ps| - 1], i) + (if ChildIndex(b, last) == i then [last] else [])
  }

  /** The four quadrant lists partition the points: nothing lost, nothing added. */
  lemma {:induction false} PointsForPartition(b: Box, ps: seq<Point>)
    ensures multiset(PointsFor(b, ps, 0)) + multiset(PointsFor(b, ps, 1))
          + multiset(PointsFor(b, ps, 2)) + multiset(PointsFor(b, ps, 3)) == multiset(ps)
  {
    if ps != [] {
      var init, last := ps[..|ps| - 1], ps[|ps| - 1];
      PointsForPartition(b, init);
      LastPointGoesToOneQuadrant(b, ps);
    }
  }

  lemma LastPointGoesToOneQuadrant(b: Box, ps: seq<Point>)
    requires ps != []
    ensures var init, last := ps[..|ps| - 1], ps[|ps| - 1];
            && multiset(ps) == multiset(init) + multiset{last}
            && forall j | 0 <= j < 4 ::
                 multiset(PointsFor(b, ps, j))
                 == multiset(PointsFor(b, init, j)) + (if ChildIndex(b, last) == j then multiset{last} else multiset{})
  {
    assert ps == ps[..|ps| - 1] + [ps[|ps| - 1]];
  }

  function SplitChild(b: Box, ps: seq<Point>, i: nat): Node
    requires i < 4
  {
    Node(Quadrant(b, i), PointsFor(b, ps, i), [])
  }

  /** The node `Subdivide` leaves behind: four quadrant leaves, no own points. */
  function Split(n: Node): Node
  {
    var b, ps := n.bounds, n.points;
    Node(b, [], [SplitChild(b, ps, 0), SplitChild(b, ps, 1), SplitChild(b, ps, 2), SplitChild(b, ps, 3)])
  }

  /** Splitting a leaf keeps its box and its multiset of points and is well formed. */
  lemma SplitIsSound(n: Node)
    requires n.children == []
    ensures WellFormed(Split(n))
    ensures Split(n).bounds == n.bounds
    ensures Contents(Split(n)) == Contents(n)
  {
    SplitIsWellFormed(n);
    SplitKeepsContents(n);
  }

  lemma SplitChildContents(b: Box, ps: seq<Point>, i: nat)
    requires i < 4
    ensures Contents(SplitChild(b, ps, i)) == multiset(PointsFor(b, ps, i))
    ensures forall q | q in Contents(SplitChild(b, ps, i)) :: ChildIndex(b, q) == i
  {
    assert ChildrenContents([]) == multiset{};
  }

  lemma SplitIsWellFormed(n: Node)
    ensures WellFormed(Split(n))
  {
    forall i | 0 <= i < 4
      ensures forall q | q in Contents(Split(n).children[i]) :: ChildIndex(n.bounds, q) == i
    {
      SplitChildContents(n.bounds, n.points, i);
    }
  }

  lemma SplitKeepsContents(n: Node)
    requires n.children == []
    ensures Contents(Split(n)) == Contents(n)
  {
    var b, ps := n.bounds, n.points;
    ChildrenContentsOfFour(Split(n).children);
    SplitChildContents(b, ps, 0);
    SplitChildContents(b, ps, 1);
    SplitChildContents(b, ps, 2);
    SplitChildContents(b, ps, 3);
    PointsForPartition(b, ps);
  }

  /**
   * `Subdivide`: quarters the leaf's box at its centre and moves every point,
   * in order, into the child `ChildIndex` picks; the node's own list ends empty.
   */
  method Subdivide(node: Node) returns (r: Node)
    requires node.children == []
    ensures r == Split(node)
    ensures WellFormed(r) && r.points == [] && |r.children| == 4
    ensures r.bounds == node.bounds && Contents(r) == Contents(node)
  {
    var b := node.bounds;
    var buckets: seq<seq<Point>> := [[], [], [], []];
    for k := 0 to |node.points|
      invariant |buckets| == 4
      invariant forall i | 0 <= i < 4 :: buckets[i] == PointsFor(b, node.points[..k], i)
    {
      var p := node.points[k];
      var i := ChildIndex(b, p);
      buckets := buckets[i := buckets[i] + [p]];
      assert node.points[..k + 1][..k] == node.points[..k];
    }
    assert node.points[..|node.points|] == node.points;
    r := Node(b, [], [Node(Quadrant(b, 0), buckets[0], []), Node(Quadrant(b, 1), buckets[1], []),
                      Node(Quadrant(b, 2), buckets[2], []), Node(Quadrant(b, 3), buckets[3], [])]);
    SplitIsSound(node);
  }

  // ---------------------------------------------------------------------
  // Insert
  // ---------------------------------------------------------------------

  /**
   * The tree after `Insert(p)`: walk down by `ChildIndex` to a leaf, append
   * `p`, and split that leaf once if it now holds more than `maxPoints`.
   */
  function Inserted(n: Node, p: Point, maxPoints: int): Node
    requires WellFormed(n)
    decreases n
  {
    if n.children == [] then
      var leaf := n.(points := n.points + [p]);
      if |leaf.points| > maxPoints then Split(leaf) else leaf
    else
      var i := ChildIndex(n.bounds, p);
      n.(children := n.children[i := Inserted(n.children[i], p, maxPoints)])
  }

  /** The leaf the descent by `ChildIndex` reaches. */
  function Descend(n: Node, p: Point): Node
    requires WellFormed(n)
    decreases n
  {
    if n.children == [] then n else Descend(n.children[ChildIndex(n.bounds, p)], p)
  }

  /**
   * Replacing one child by a well-formed node over the same quadrant that
   * holds only points routed to that quadrant keeps the parent well formed.
   */
  lemma ReplaceChildIsWellFormed(n: Node, i: nat, c: Node)
    requires WellFormed(n) && n.children != [] && i < 4
    requires WellFormed(c) && c.bounds == n.children[i].bounds
    requires forall q | q in Contents(c) :: ChildIndex(n.bounds, q) == i
    ensures WellFormed(n.(children := n.children[i := c]))
  {
    var r := n.(children := n.children[i := c]);
    forall j | 0 <= j < 4
      ensures r.children[j].bounds == Quadrant(r.bounds, j)
      ensures forall q | q in Contents(r.children[j]) :: ChildIndex(r.bounds, q) == j
      ensures WellFormed(r.children[j])
    {
    }
  }

  lemma Cancel(a: multiset<Point>, b: multiset<Point>, c: multiset<Point>, d: multiset<Point>)
    requires a + c == b + (c + d)
    ensures a == b + d
  {
    forall q
      ensures a[q] == (b + d)[q]
    {
      assert (a + c)[q] == (b + (c + d))[q];
    }
  }

  /** Inserting keeps the box and adds exactly one copy of `p`. */
  lemma {:induction false} InsertedContents(n: Node, p: Point, maxPoints: int)
    requires WellFormed(n)
    ensures Inserted(n, p, maxPoints).bounds == n.bounds
    ensures Contents(Inserted(n, p, maxPoints)) == Contents(n) + multiset{p}
    decreases n
  {
    if n.children == [] {
      var leaf := n.(points := n.points + [p]);
      if |leaf.points| > maxPoints {
        SplitKeepsContents(leaf);
      }
    } else {
      var i := ChildIndex(n.bounds, p);
      var c := n.children[i];
      var c' := Inserted(c, p, maxPoints);
      InsertedContents(c, p, maxPoints);
      ChildrenContentsUpdate(n.children, i, c');
      var before, after := ChildrenContents(n.children), ChildrenContents(n.children[i := c']);
      Cancel(after, before, Contents(c), multiset{p});
    }
  }

  /**
   * Inserting keeps the structural invariant, and keeps every point inside
   * the box when `p` is inside it.
   */
  lemma {:induction false} InsertedIsSound(n: Node, p: Point, maxPoints: int)
    requires WellFormed(n)
    ensures WellFormed(Inserted(n, p, maxPoints))
    ensures Inserted(n, p, maxPoints).bounds == n.bounds
    ensures Contents(Inserted(n, p, maxPoints)) == Contents(n) + multiset{p}
    ensures Contained(n) && InClosedBox(n.bounds, p) ==> Contained(Inserted(n, p, maxPoints))
    decreases n
  {
    InsertedContents(n, p, maxPoints);
    var r := Inserted(n, p, maxPoints);
    if n.children == [] {
      var leaf := n.(points := n.points + [p]);
      if |leaf.points| > maxPoints {
        SplitIsWellFormed(leaf);
      }
    } else {
      var i := ChildIndex(n.bounds, p);
      var c := n.children[i];
      InsertedIsSound(c, p, maxPoints);
      ReplaceChildIsWellFormed(n, i, Inserted(c, p, maxPoints));
    }
  }

  /** The inserted point is found in the leaf that the descent for it reaches. */
  lemma {:induction false} InsertedPointIsReachable(n: Node, p: Point, maxPoints: int)
    requires WellFormed(n)
    ensures WellFormed(Inserted(n, p, maxPoints))
    ensures p in Descend(Inserted(n, p, maxPoints), p).points
    decreases n
  {
    InsertedIsSound(n, p, maxPoints);
    if n.children == [] {
      var leaf := n.(points := n.points + [p]);
      if |leaf.points| > maxPoints {
        var i := ChildIndex(n.bounds, p);
        assert leaf.points[..|leaf.points| - 1] == n.points;
        assert Descend(Split(leaf), p) == SplitChild(n.bounds, leaf.points, i);
      }
    } else {
      InsertedPointIsReachable(n.children[ChildIndex(n.bounds, p)], p, maxPoints);
    }
  }

  /**
   * A split is one level deep: with room for one point, inserting the same
   * point twice splits the root, and the child that receives both copies is
   * left holding more than the maximum.
   */
  lemma SplitIsOneLevel(b: Box, p: Point)
    ensures var t := Inserted(Inserted(Node(b, [], []), p, 1), p, 1);
            && |t.children| == 4
            && |t.children[ChildIndex(b, p)].points| == 2
            && t.children[ChildIndex(b, p)].children == []
  {
    var once := Inserted(Node(b, [], []), p, 1);
    assert once == Node(b, [p], []);
    var leaf := Node(b, [p, p], []);
    var i := ChildIndex(b, p);
    assert [p, p][..1] == [p];
    assert PointsFor(b, [p], i) == [p];
    assert PointsFor(b, [p, p], i) == [p, p];
  }

  // ---------------------------------------------------------------------
  // Paths: how the in-place update of a reached node is expressed on values
  // ---------------------------------------------------------------------

  ghost predicate ValidPath(n: Node, path: seq<nat>)
    decreases path
  {
    path == [] || (path[0] < |n.children| && ValidPath(n.children[path[0]], path[1..]))
  }

  function NodeAt(n: Node, path: seq<nat>): Node
    requires ValidPath(n, path)
    decreases path
  {
    if path == [] then n else NodeAt(n.children[path[0]], path[1..])
  }

  /** `n` with the node at the end of `path` replaced by `x`. */
  function ReplaceAt(n: Node, path: seq<nat>, x: Node): Node
    requires ValidPath(n, path)
    decreases path
  {
    if path == [] then x
    else n.(children := n.children[path[0] := ReplaceAt(n.children[path[0]], path[1..], x)])
  }

  /** Extending a path by one child step: where it leads and what replacing there does. */
  lemma {:induction false} PathStep(n: Node, path: seq<nat>, i: nat, x: Node)
    requires ValidPath(n, path) && i < |NodeAt(n, path).children|
    ensures ValidPath(n, path + [i])
    ensures NodeAt(n, path + [i]) == NodeAt(n, path).children[i]
    ensures ReplaceAt(n, path + [i], x)
         == ReplaceAt(n, path, NodeAt(n, path).(children := NodeAt(n, path).children[i := x]))
    decreases path
  {
    if path != [] {
      assert (path + [i])[1..] == path[1..] + [i];
      PathStep(n.children[path[0]], path[1..], i, x);
    } else {
      assert [i][1..] == [];
    }
  }

  // ---------------------------------------------------------------------
  // Remove
  // ---------------------------------------------------------------------

  /** `TArray::Remove`: drops every element equal to `p`. */
  function RemoveAll(ps: seq<Point>, p: Point): (r: seq<Point>)
    ensures multiset(r) == multiset(ps)[p := 0]
    ensures |r| <= |ps| && (|r| < |ps| <==> p in ps)
  {
    if ps == [] then []
    else
      assert ps == [ps[0]] + ps[1..];
      (if ps[0] == p then [] else [ps[0]]) + RemoveAll(ps[1..], p)
  }

  /**
   * `RemoveFromNode`: false as soon as a box on the descent path does not
   * contain `p`; at the leaf, every copy of `p` goes, and the result says
   * whether there was any.
   */
  function RemoveFromNode(n: Node, p: Point, rule: EdgeRule): (bool, Node)
    requires WellFormed(n)
    decreases n
  {
    if !IsInside(n.bounds, p, rule) then (false, n)
    else if n.children == [] then
      var kept := RemoveAll(n.points, p);
      (|kept| < |n.points|, n.(points := kept))
    else
      var i := ChildIndex(n.bounds, p);
      var (removed, child) := RemoveFromNode(n.children[i], p, rule);
      (removed, n.(children := n.children[i := child]))
  }

  /** Every box on the descent path for `p` contains `p` under `rule`. */
  ghost predicate PathInside(n: Node, p: Point, rule: EdgeRule)
    requires WellFormed(n)
    decreases n
  {
    && IsInside(n.bounds, p, rule)
    && (n.children == [] || PathInside(n.children[ChildIndex(n.bounds, p)], p, rule))
  }

  lemma CancelRemoved(a: multiset<Point>, b: multiset<Point>, c: multiset<Point>, p: Point)
    requires a + c == b + c[p := 0] && b[p] == c[p]
    ensures a == b[p := 0]
  {
    forall q
      ensures a[q] == b[p := 0][q]
    {
      assert (a + c)[q] == (b + c[p := 0])[q];
    }
  }

  /**
   * `Remove` reports true iff the whole descent path contains `p` and `p` is
   * stored; when the path leaves a box, nothing changes.
   */
  lemma {:induction false} RemoveFromNodeResult(n: Node, p: Point, rule: EdgeRule)
    requires WellFormed(n)
    ensures RemoveFromNode(n, p, rule).1.bounds == n.bounds
    ensures RemoveFromNode(n, p, rule).0 <==> PathInside(n, p, rule) && p in Contents(n)
    ensures !PathInside(n, p, rule) ==> RemoveFromNode(n, p, rule) == (false, n)
    decreases n
  {
    if IsInside(n.bounds, p, rule) && n.children != [] {
      var i := ChildIndex(n.bounds, p);
      var c := n.children[i];
      RemoveFromNodeResult(c, p, rule);
      RoutedCount(n, p);
      if !PathInside(c, p, rule) {
        assert n.children[i := c] == n.children;
      }
    }
  }

  /**
   * What `Remove` does to the tree's multiset: when the whole descent path
   * contains `p`, all copies of `p` are gone (they all sit in the reached
   * leaf); otherwise nothing changes.
   */
  lemma {:induction false} RemoveFromNodeContents(n: Node, p: Point, rule: EdgeRule)
    requires WellFormed(n)
    ensures Contents(RemoveFromNode(n, p, rule).1)
         == if PathInside(n, p, rule) then Contents(n)[p := 0] else Contents(n)
    decreases n
  {
    RemoveFromNodeResult(n, p, rule);
    if PathInside(n, p, rule) && n.children != [] {
      var i := ChildIndex(n.bounds, p);
      var c := n.children[i];
      assert PathInside(c, p, rule);
      RemoveFromNodeContents(c, p, rule);
      var c' := RemoveFromNode(c, p, rule).1;
      assert Contents(c') == Contents(c)[p := 0];
      ChildrenContentsUpdate(n.children, i, c');
      RoutedCount(n, p);
      var before, after := ChildrenContents(n.children), ChildrenContents(n.children[i := c']);
      assert Contents(n) == before;
      CancelRemoved(after, before, Contents(c), p);
      assert RemoveFromNode(n, p, rule).1 == n.(children := n.children[i := c']);
    }
  }

  /** Removing keeps the structural invariant. */
  lemma {:induction false} RemoveFromNodeIsWellFormed(n: Node, p: Point, rule: EdgeRule)
    requires WellFormed(n)
    ensures WellFormed(RemoveFromNode(n, p, rule).1)
    decreases n
  {
    if IsInside(n.bounds, p, rule) && n.children != [] {
      var i := ChildIndex(n.bounds, p);
      var c := n.children[i];
      RemoveFromNodeIsWellFormed(c, p, rule);
      RemoveFromNodeResult(c, p, rule);
      RemoveFromNodeContents(c, p, rule);
      var c' := RemoveFromNode(c, p, rule).1;
      forall q | q in Contents(c')
        ensures ChildIndex(n.bounds, q) == i
      {
        assert q in Contents(c);
      }
      ReplaceChildIsWellFormed(n, i, c');
    }
  }

  /** Everything `Remove` does to a well-formed tree. */
  lemma RemoveFromNodeIsSound(n: Node, p: Point, rule: EdgeRule)
    requires WellFormed(n)
    ensures WellFormed(RemoveFromNode(n, p, rule).1)
    ensures RemoveFromNode(n, p, rule).1.bounds == n.bounds
    ensures RemoveFromNode(n, p, rule).0 <==> PathInside(n, p, rule) && p in Contents(n)
    ensures Contents(RemoveFromNode(n, p, rule).1)
         == if PathInside(n, p, rule) then Contents(n)[p := 0] else Contents(n)
    ensures !PathInside(n, p, rule) ==> RemoveFromNode(n, p, rule) == (false, n)
  {
    RemoveFromNodeIsWellFormed(n, p, rule);
    RemoveFromNodeResult(n, p, rule);
    RemoveFromNodeContents(n, p, rule);
  }

  /** With edge-inclusive boxes, a point of the closed root box always reaches its leaf. */
  lemma {:induction false} IncludedEdgesReachLeaf(n: Node, p: Point)
    requires WellFormed(n) && InClosedBox(n.bounds, p)
    ensures PathInside(n, p, IncludesEdges)
    decreases n
  {
    if n.children != [] {
      RoutedPointStaysInside(n.bounds, p);
      IncludedEdgesReachLeaf(n.children[ChildIndex(n.bounds, p)], p);
    }
  }

  /**
   * With edge-exclusive boxes, a point on the root's min edge can never be
   * removed, and neither can a point on the vertical centre line of a node
   * that has been split.
   */
  lemma ExcludedEdgesBlockRemoval(n: Node, p: Point)
    requires WellFormed(n)
    requires p.x as real == n.bounds.minX || (n.children != [] && p.x as real == n.bounds.CenterX())
    ensures !PathInside(n, p, ExcludesEdges)
    ensures RemoveFromNode(n, p, ExcludesEdges) == (false, n)
  {
    if p.x as real != n.bounds.minX {
      var i := ChildIndex(n.bounds, p);
      assert n.children[i].bounds.minX == n.bounds.CenterX();
      assert !IsInside(n.children[i].bounds, p, ExcludesEdges);
      RemoveFromNodeIsSound(n, p, ExcludesEdges);
      assert n.children[i := n.children[i]] == n.children;
    }
  }

  // ---------------------------------------------------------------------
  // Nearest-point search
  // ---------------------------------------------------------------------

  lemma SwapKeepsElements(s: seq<nat>, k: nat)
    requires 0 < k < |s|
    ensures multiset(s[k - 1 := s[k]][k := s[k - 1]]) == multiset(s)
  {
    var t := s[k - 1 := s[k]][k := s[k - 1]];
    assert s == s[..k - 1] + [s[k - 1], s[k]] + s[k + 1..];
    assert t == s[..k - 1] + [s[k], s[k - 1]] + s[k + 1..];
  }

  /** The indices `order[..hi]` list ascending keys. */
  ghost predicate SortedPrefix(keys: seq<real>, order: seq<nat>, hi: nat)
    requires hi <= |order| && forall j | 0 <= j < |order| :: order[j] < |keys|
  {
    forall a, b | 0 <= a < b < hi :: keys[order[a]] <= keys[order[b]]
  }

  /**
   * The state of an insertion step: `order[..i + 1]` is sorted except at
   * position `k`, where the sinking index sits, and its neighbours are in
   * order with each other.
   */
  ghost predicate SortedAroundHole(keys: seq<real>, order: seq<nat>, i: nat, k: nat)
    requires i < |order| && forall j | 0 <= j < |order| :: order[j] < |keys|
  {
    && (forall a, b | 0 <= a < b <= i && b != k :: keys[order[a]] <= keys[order[b]])
    && (0 < k < i ==> keys[order[k - 1]] <= keys[order[k + 1]])
  }

  /** Swapping the sinking index one place down keeps the state. */
  lemma SinkStep(keys: seq<real>, order: seq<nat>, i: nat, k: nat)
    requires i < |order| && forall j | 0 <= j < |order| :: order[j] < |keys|
    requires 0 < k <= i && SortedAroundHole(keys, order, i, k) && keys[order[k]] < keys[order[k - 1]]
    ensures var t := order[k - 1 := order[k]][k := order[k - 1]];
            && |t| == |order| && multiset(t) == multiset(order)
            && (forall j | 0 <= j < |t| :: t[j] < |keys|)
            && SortedAroundHole(keys, t, i, k - 1)
  {
    SwapKeepsElements(order, k);
  }

  /** Once the sinking index has stopped, the prefix is sorted. */
  lemma SinkDone(keys: seq<real>, order: seq<nat>, i: nat, k: nat)
    requires i < |order| && forall j | 0 <= j < |order| :: order[j] < |keys|
    requires k <= i && SortedAroundHole(keys, order, i, k)
    requires k == 0 || keys[order[k - 1]] <= keys[order[k]]
    ensures SortedPrefix(keys, order, i + 1)
  {
  }

  /** One insertion step: sinks `order[i]` into the sorted prefix before it. */
  method InsertIntoPrefix(keys: seq<real>, order: seq<nat>, i: nat) returns (r: seq<nat>)
    requires i < |order| && forall j | 0 <= j < |order| :: order[j] < |keys|
    requires SortedPrefix(keys, order, i)
    ensures |r| == |order| && multiset(r) == multiset(order)
    ensures forall j | 0 <= j < |r| :: r[j] < |keys|
    ensures SortedPrefix(keys, r, i + 1)
  {
    r := order;
    var k := i;
    while k > 0 && keys[r[k]] < keys[r[k - 1]]
      invariant 0 <= k <= i && |r| == |order| && multiset(r) == multiset(order)
      invariant forall j | 0 <= j < |r| :: r[j] < |keys|
      invariant SortedAroundHole(keys, r, i, k)
    {
      SinkStep(keys, r, i, k);
      r := r[k - 1 := r[k]][k := r[k - 1]];
      k := k - 1;
    }
    SinkDone(keys, r, i, k);
  }

  /** `TArray::Sort` of the four children's indices by their box distance, ascending. */
  method SortByDistance(keys: seq<real>) returns (order: seq<nat>)
    requires |keys| == 4
    ensures |order| == 4 && multiset(order) == multiset{0, 1, 2, 3}
    ensures forall j | 0 <= j < 4 :: order[j] < 4
    ensures forall j, k | 0 <= j < k < 4 :: keys[order[j]] <= keys[order[k]]
  {
    order := [0, 1, 2, 3];
    for i := 0 to 4
      invariant |order| == 4 && multiset(order) == multiset{0, 1, 2, 3}
      invariant forall j | 0 <= j < 4 :: order[j] < 4
      invariant SortedPrefix(keys, order, i)
    {
      order := InsertIntoPrefix(keys, order, i);
    }
  }

  /** No point stored under `n` is nearer to `s` than `d` (squared). */
  ghost predicate NothingNearer(n: Node, s: Point, d: real)
  {
    forall q | q in Contents(n) :: d <= DistSquared(q, s)
  }

  lemma NothingNearerAtSmallerDistance(n: Node, s: Point, d: real, d': real)
    requires NothingNearer(n, s, d) && d' <= d
    ensures NothingNearer(n, s, d')
  {
  }

  /** A pruned node holds no point nearer than the best distance so far. */
  lemma PrunedNodeHasNothingNearer(n: Node, s: Point, minDistSq: real)
    requires Contained(n) && SquaredDistanceToPoint(n.bounds, s) >= minDistSq
    ensures forall q | q in Contents(n) :: minDistSq <= DistSquared(q, s)
  {
    forall q | q in Contents(n)
      ensures minDistSq <= DistSquared(q, s)
    {
      BoxDistanceIsLowerBound(n.bounds, q, s);
    }
  }

  /** Having scanned every own point of a leaf covers the whole leaf. */
  lemma LeafScanned(n: Node, s: Point, minDistSq: real)
    requires n.children == []
    requires forall j | 0 <= j < |n.points| :: minDistSq <= DistSquared(n.points[j], s)
    ensures forall q | q in Contents(n) :: minDistSq <= DistSquared(q, s)
  {
    assert Contents(n) == multiset(n.points);
    forall q | q in Contents(n)
      ensures minDistSq <= DistSquared(q, s)
    {
      var j :| 0 <= j < |n.points| && n.points[j] == q;
    }
  }

  /** A permutation of the four child indices lists every one of them. */
  lemma PermutationListsChild(order: seq<nat>, i: nat)
    requires |order| == 4 && multiset(order) == multiset{0, 1, 2, 3} && i < 4
    ensures exists j | 0 <= j < 4 :: order[j] == i
  {
    assert i in multiset(order);
  }

  /** Having searched all four children, in whatever order, covers the node. */
  lemma ChildrenScanned(n: Node, s: Point, minDistSq: real, order: seq<nat>)
    requires |n.children| == 4 && n.points == []
    requires |order| == 4 && multiset(order) == multiset{0, 1, 2, 3}
    requires forall j | 0 <= j < 4 :: NothingNearer(n.children[order[j]], s, minDistSq)
    ensures forall q | q in Contents(n) :: minDistSq <= DistSquared(q, s)
  {
    forall i | 0 <= i < 4
      ensures NothingNearer(n.children[i], s, minDistSq)
    {
      PermutationListsChild(order, i);
      var j :| 0 <= j < 4 && order[j] == i;
    }
    ChildrenContentsOfFour(n.children);
    assert Contents(n) == ChildrenContents(n.children);
  }

  /** A point stored in a child is stored in the node. */
  lemma ChildContentsIncluded(n: Node, i: nat, q: Point)
    requires i < |n.children| && q in Contents(n.children[i])
    ensures q in Contents(n)
  {
    ChildrenContentsMember(n.children, q);
  }

  /**
   * `FindNearestRecursive`: prunes the node when its box is no nearer than
   * the best distance so far, otherwise scans the node's own points and then
   * the children, nearest box first.  The best distance only goes down, and
   * whenever it does the reported point is a stored point at exactly that
   * distance.  When every point lies in its node's box the search misses
   * nothing: no stored point is nearer than the final best.  A node whose
   * box is no nearer than the best is left unsearched, whatever it holds.
   */
  method FindNearestRecursive(n: Node, s: Point, minDistSq: real, nearest: Point)
    returns (newMinDistSq: real, newNearest: Point)
    requires WellFormed(n)
    ensures newMinDistSq <= minDistSq
    ensures || (newMinDistSq == minDistSq && newNearest == nearest)
            || (&& newMinDistSq < minDistSq
                && newNearest in Contents(n)
                && DistSquared(newNearest, s) == newMinDistSq)
    ensures Contained(n) ==> NothingNearer(n, s, newMinDistSq)
    ensures SquaredDistanceToPoint(n.bounds, s) >= minDistSq ==> newMinDistSq == minDistSq && newNearest == nearest
    decreases n, 1
  {
    newMinDistSq, newNearest := minDistSq, nearest;
    if SquaredDistanceToPoint(n.bounds, s) >= newMinDistSq {
      if Contained(n) {
        PrunedNodeHasNothingNearer(n, s, newMinDistSq);
      }
      return;
    }
    for k := 0 to |n.points|
      invariant newMinDistSq <= minDistSq
      invariant || (newMinDistSq == minDistSq && newNearest == nearest)
                || (&& newMinDistSq < minDistSq
                    && newNearest in multiset(n.points)
                    && DistSquared(newNearest, s) == newMinDistSq)
      invariant forall j | 0 <= j < k :: newMinDistSq <= DistSquared(n.points[j], s)
    {
      var d := DistSquared(n.points[k], s);
      if d < newMinDistSq {
        newMinDistSq, newNearest := d, n.points[k];
      }
    }
    if n.children == [] {
      LeafScanned(n, s, newMinDistSq);
      return;
    }
    newMinDistSq, newNearest := SearchChildren(n, s, newMinDistSq, newNearest);
  }

  /**
   * The second half of `FindNearestRecursive`: the four children, sorted by
   * the distance of their boxes, searched nearest first.
   */
  method SearchChildren(n: Node, s: Point, minDistSq: real, nearest: Point)
    returns (newMinDistSq: real, newNearest: Point)
    requires WellFormed(n) && n.children != []
    ensures newMinDistSq <= minDistSq
    ensures || (newMinDistSq == minDistSq && newNearest == nearest)
            || (&& newMinDistSq < minDistSq
                && newNearest in Contents(n)
                && DistSquared(newNearest, s) == newMinDistSq)
    ensures Contained(n) ==> NothingNearer(n, s, newMinDistSq)
    decreases n, 0
  {
    newMinDistSq, newNearest := minDistSq, nearest;
    var cs := n.children;
    var order := SortByDistance([SquaredDistanceToPoint(cs[0].bounds, s), SquaredDistanceToPoint(cs[1].bounds, s),
                                 SquaredDistanceToPoint(cs[2].bounds, s), SquaredDistanceToPoint(cs[3].bounds, s)]);
    for k := 0 to 4
      invariant newMinDistSq <= minDistSq
      invariant || (newMinDistSq == minDistSq && newNearest == nearest)
                || (&& newMinDistSq < minDistSq
                    && newNearest in Contents(n)
                    && DistSquared(newNearest, s) == newMinDistSq)
      invariant Contained(n) ==> forall j | 0 <= j < k :: NothingNearer(cs[order[j]], s, newMinDistSq)
    {
      var i := order[k];
      if Contained(n) {
        ContainedChild(n, i);
      }
      var before := newMinDistSq;
      newMinDistSq, newNearest := FindNearestRecursive(cs[i], s, newMinDistSq, newNearest);
      if newMinDistSq < before {
        ChildContentsIncluded(n, i, newNearest);
      }
      if Contained(n) {
        assert NothingNearer(cs[i], s, newMinDistSq);
        forall j | 0 <= j < k + 1
          ensures NothingNearer(cs[order[j]], s, newMinDistSq)
        {
          if j < k {
            NothingNearerAtSmallerDistance(cs[order[j]], s, before, newMinDistSq);
          }
        }
      }
    }
    if Contained(n) {
      ChildrenScanned(n, s, newMinDistSq, order);
    }
  }

  // ---------------------------------------------------------------------
  // The tree object
  // ---------------------------------------------------------------------

  /** The node capacity a tree gets when its creator names none. */
  const DefaultMaxPointsPerNode: int := 4

  /** `FQuadtree`. */
  class Quadtree {
    var root: Node
    const maxPointsPerNode: int

    ghost predicate Valid()
      reads this
    {
      WellFormed(root)
    }

    /** The constructor: an empty leaf over the given box. */
    constructor (inBounds: Box, inMaxPointsPerNode: int := DefaultMaxPointsPerNode)
      ensures Valid()
      ensures root == Node(inBounds, [], []) && maxPointsPerNode == inMaxPointsPerNode
      ensures Contents(root) == multiset{}
    {
      root := Node(inBounds, [], []);
      maxPointsPerNode := inMaxPointsPerNode;
    }

    /**
     * `Insert`: walks down to a leaf, appends the point there and splits
     * that leaf once if it now holds more than `maxPointsPerNode`.
     */
    method Insert(p: Point)
      requires Valid()
      modifies this
      ensures Valid()
      ensures root == Inserted(old(root), p, maxPointsPerNode)
    {
      InsertedIsSound(root, p, maxPointsPerNode);
      var t, path: seq<nat> := root, [];
      var node := t;
      while node.children != []
        invariant WellFormed(node) && ValidPath(t, path) && NodeAt(t, path) == node
        invariant ReplaceAt(t, path, Inserted(node, p, maxPointsPerNode)) == Inserted(t, p, maxPointsPerNode)
        decreases node
      {
        var i := ChildIndex(node.bounds, p);
        PathStep(t, path, i, Inserted(node.children[i], p, maxPointsPerNode));
        path := path + [i];
        node := node.children[i];
      }
      var leaf := node.(points := node.points + [p]);
      if |leaf.points| > maxPointsPerNode {
        leaf := Subdivide(leaf);
      }
      root := ReplaceAt(t, path, leaf);
    }

    /**
     * `Remove`: the result and the new tree are those of `RemoveFromNode`
     * started at the root.
     */
    method Remove(p: Point, rule: EdgeRule) returns (removed: bool)
      requires Valid()
      modifies this
      ensures Valid()
      ensures (removed, root) == RemoveFromNode(old(root), p, rule)
    {
      RemoveFromNodeIsSound(root, p, rule);
      var r := RemoveFromNode(root, p, rule);
      removed, root := r.0, r.1;
    }

    /**
     * `FindNearest`: true iff some stored point is strictly nearer than the
     * search radius; the reported point is then a nearest stored point.  When
     * nothing is found the caller's point is left as it was.  Completeness
     * and minimality need every point inside the root box: a root box no
     * nearer than the radius finds nothing, whatever the tree holds.
     */
    method FindNearest(s: Point, maxSearchRadius: real, outNearest: Point) returns (found: bool, nearest: Point)
      requires Valid()
      ensures found ==> nearest in Contents(root) && DistSquared(nearest, s) < maxSearchRadius * maxSearchRadius
      ensures !found ==> nearest == outNearest
      ensures Contained(root) ==>
                (found <==> exists q | q in Contents(root) :: DistSquared(q, s) < maxSearchRadius * maxSearchRadius)
      ensures Contained(root) && found ==>
                forall q | q in Contents(root) :: DistSquared(nearest, s) <= DistSquared(q, s)
      ensures SquaredDistanceToPoint(root.bounds, s) >= maxSearchRadius * maxSearchRadius ==> !found
    {
      var radiusSq := maxSearchRadius * maxSearchRadius;
      var minDistSq;
      minDistSq, nearest := FindNearestRecursive(root, s, radiusSq, outNearest);
      found := minDistSq < radiusSq;
    }
  }

  /**
   * `Insert` never checks the box and the search prunes by box distance, so
   * a point stored outside the root box is missed by a search right beside
   * it: (100, 1) lies at distance 1 from (100, 0), within the radius of 10,
   * yet the root box (0, 0)-(4, 4) is 96 away and the search stops there.
   */
  method OutOfBoxPointIsMissed() returns (t: Quadtree, found: bool)
    ensures Point(100, 1) in Contents(t.root)
    ensures DistSquared(Point(100, 1), Point(100, 0)) < 10.0 * 10.0
    ensures !found
  {
    t := new Quadtree(Box(0.0, 0.0, 4.0, 4.0));
    t.Insert(Point(100, 1));
    assert t.root == Node(Box(0.0, 0.0, 4.0, 4.0), [Point(100, 1)], []);
    assert SquaredDistanceToPoint(t.root.bounds, Point(100, 0)) == 9216.0;
    var nearest;
    found, nearest := t.FindNearest(Point(100, 0), 10.0, Point(100, 0));
  }
}

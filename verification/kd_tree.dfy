/** The 2-d tree of kdtree/KdTree.java.  Coordinates are exact reals (the
    source's doubles without rounding, NaN or signed zeros); a point is a
    pair of them and a rectangle is given by its four bounds, as in the
    algs4 `Point2D` and `RectHV` types.  A node's rectangle is `None` until
    its parent fills it in, exactly where the source leaves it null.  The
    reference semantics is the set of stored points, which is what
    kdtree/PointSET.java keeps. */
module KdTree {
  import opened Wrappers

  datatype Point = Point(x: real, y: real)

  datatype Rect = Rect(xmin: real, ymin: real, xmax: real, ymax: real)

  datatype Node = Nil | Node(item: Point, left: Node, right: Node, rect: Option<Rect>)

  datatype Tree = Tree(root: Node, size: int)

  /** Both failures are `IllegalArgumentException`s: a null argument, and a
      rectangle whose bounds `RectHV`'s constructor rejects. */
  datatype Error = NullArgument | ReversedBounds

  // ---------------------------------------------------------------------
  // Points and rectangles

  /** The split coordinate: x at even depth, y at odd depth. */
  function Key(p: Point, even: bool): real
  {
    if even then p.x else p.y
  }

  /** `Double.compare` of the split coordinates is negative. */
  predicate Less(p: Point, item: Point, even: bool)
  {
    Key(p, even) < Key(item, even)
  }

  /** RectHV.contains: the bounds are inclusive. */
  predicate Inside(r: Rect, p: Point)
  {
    r.xmin <= p.x <= r.xmax && r.ymin <= p.y <= r.ymax
  }

  /** RectHV.intersects. */
  predicate Intersects(a: Rect, b: Rect)
  {
    a.xmax >= b.xmin && a.ymax >= b.ymin && b.xmax >= a.xmin && b.ymax >= a.ymin
  }

  /** The rectangle of the whole tree, [0,1] x [0,1]. */
  const Unit: Rect := Rect(0.0, 0.0, 1.0, 1.0)

  /** The rectangle of a left child: the parent's, cut at the split coordinate. */
  function LeftRect(r: Rect, item: Point, even: bool): Rect
  {
    Rect(r.xmin, r.ymin, if even then item.x else r.xmax, if !even then item.y else r.ymax)
  }

  /** The rectangle of a right child. */
  function RightRect(r: Rect, item: Point, even: bool): Rect
  {
    Rect(if even then item.x else r.xmin, if !even then item.y else r.ymin, r.xmax, r.ymax)
  }

  /** What `RectHV`'s constructor accepts: neither pair of bounds reversed. */
  predicate Proper(r: Rect)
  {
    r.xmin <= r.xmax && r.ymin <= r.ymax
  }

  predicate Within(s: set<Point>, r: Rect)
  {
    forall q :: q in s ==> Inside(r, q)
  }

  // ---------------------------------------------------------------------
  // The tree and its invariant

  /** The points stored in a subtree. */
  function Points(t: Node): set<Point>
  {
    if t == Nil then {} else {t.item} + Points(t.left) + Points(t.right)
  }

  /** The number of nodes of a subtree. */
  function Count(t: Node): nat
  {
    if t == Nil then 0 else 1 + Count(t.left) + Count(t.right)
  }

  /** Every node has its rectangle. */
  predicate HasRects(t: Node)
  {
    t == Nil || (t.rect.Some? && HasRects(t.left) && HasRects(t.right))
  }

  /** The rectangle of a node. */
  function RectOf(t: Node): Rect
    requires t != Nil && HasRects(t)
  {
    t.rect.value
  }

  /** The search-tree order: the left subtree is strictly less on the split
      coordinate, the right subtree is not less and does not hold the node's
      own point, and the axes alternate with depth. */
  predicate Ordered(t: Node, even: bool)
  {
    t == Nil ||
    (&& (forall q :: q in Points(t.left) ==> Less(q, t.item, even))
     && (forall q :: q in Points(t.right) ==> !Less(q, t.item, even))
     && t.item !in Points(t.right)
     && Ordered(t.left, !even) && Ordered(t.right, !even))
  }

  /** The subtree's rectangle is `r`, and each child's rectangle is its
      parent's cut at the parent's split coordinate. */
  predicate Framed(t: Node, r: Rect, even: bool)
  {
    t == Nil ||
    (&& t.rect == Some(r)
     && Framed(t.left, LeftRect(r, t.item, even), !even)
     && Framed(t.right, RightRect(r, t.item, even), !even))
  }

  predicate Valid(tree: Tree)
  {
    Ordered(tree.root, true) && Framed(tree.root, Unit, true) && tree.size == Count(tree.root)
  }

  lemma {:induction false} FramedRects(t: Node, r: Rect, even: bool)
    requires Framed(t, r, even)
    ensures HasRects(t)
    decreases t
  {
    if t != Nil {
      FramedRects(t.left, LeftRect(r, t.item, even), !even);
      FramedRects(t.right, RightRect(r, t.item, even), !even);
    }
  }

  /** Distinct points: the node count is the number of points. */
  lemma {:induction false} CountPoints(t: Node, even: bool)
    requires Ordered(t, even)
    ensures Count(t) == |Points(t)|
    decreases t
  {
    if t != Nil {
      CountPoints(t.left, !even);
      CountPoints(t.right, !even);
      assert t.item !in Points(t.left);
      assert Points(t.left) * Points(t.right) == {};
    }
  }

  /** The points of a child lie in the child's rectangle when the points of
      the node lie in the node's. */
  lemma ChildWithin(t: Node, r: Rect, even: bool)
    requires t != Nil && Ordered(t, even) && Within(Points(t), r)
    ensures Within(Points(t.left), LeftRect(r, t.item, even))
    ensures Within(Points(t.right), RightRect(r, t.item, even))
  {
  }

  // ---------------------------------------------------------------------
  // size, isEmpty

  function Empty(): (tree: Tree)
    ensures Valid(tree) && Points(tree.root) == {}
  {
    Tree(Nil, 0)
  }

  function Size(tree: Tree): (n: int)
    requires Valid(tree)
    ensures n == |Points(tree.root)|
  {
    CountPoints(tree.root, true);
    tree.size
  }

  function IsEmpty(tree: Tree): (b: bool)
    requires Valid(tree)
    ensures b <==> Points(tree.root) == {}
  {
    CountPoints(tree.root, true);
    tree.size == 0
  }

  // ---------------------------------------------------------------------
  // insert

  /** Where the search for `p` falls off the tree, the rectangle the new
      node would get is one `RectHV` accepts.  The search path ends at a
      node whose child on `p`'s side is missing, and that child's rectangle
      is the node's cut at its split. */
  predicate Fits(t: Node, p: Point, even: bool)
    requires HasRects(t)
    decreases t
  {
    if t == Nil || p == t.item then true
    else if Less(p, t.item, even) then
      if t.left == Nil then Proper(LeftRect(t.rect.value, t.item, even)) else Fits(t.left, p, !even)
    else
      if t.right == Nil then Proper(RightRect(t.rect.value, t.item, even)) else Fits(t.right, p, !even)
  }

  /** The recursive insert: a new node is made where the search falls off
      the tree (with no rectangle yet); a point equal to a node's point stops
      the search; a new child gets its parent's rectangle cut at the split,
      and `RectHV` throws when that cut has reversed bounds, which happens
      once a stored point lies outside its node's rectangle.  The flag says
      whether a node was made (the source's `size++`). */
  function InsertAt(t: Node, p: Point, even: bool): (r: Result<(Node, bool), Error>)
    requires HasRects(t)
    ensures r.Err? <==> !Fits(t, p, even)
    ensures r.Err? ==> r.error == ReversedBounds
    ensures r.Ok? ==> r.value.0 != Nil && Points(r.value.0) == Points(t) + {p}
    ensures r.Ok? ==> Count(r.value.0) == Count(t) + (if r.value.1 then 1 else 0)
    ensures r.Ok? && !r.value.1 ==> r.value.0 == t
    ensures t == Nil ==> r == Ok((Node(p, Nil, Nil, None), true))
    ensures r.Ok? && t != Nil ==> HasRects(r.value.0) && r.value.0.item == t.item && r.value.0.rect == t.rect
    decreases t
  {
    if t == Nil then Ok((Node(p, Nil, Nil, None), true))
    else if p == t.item then Ok((t, false))
    else if Less(p, t.item, even) then
      var below := InsertAt(t.left, p, !even);
      if below.Err? then below
      else
        var (child, added) := below.value;
        if child.rect.Some? then Ok((t.(left := child), added))
        else
          var cut := LeftRect(t.rect.value, t.item, even);
          if !Proper(cut) then Err(ReversedBounds) else Ok((t.(left := child.(rect := Some(cut))), added))
    else
      var below := InsertAt(t.right, p, !even);
      if below.Err? then below
      else
        var (child, added) := below.value;
        if child.rect.Some? then Ok((t.(right := child), added))
        else
          var cut := RightRect(t.rect.value, t.item, even);
          if !Proper(cut) then Err(ReversedBounds) else Ok((t.(right := child.(rect := Some(cut))), added))
  }

  /** A stored point or one inside its node's rectangle never makes the
      insert throw: every cut on its search path keeps its bounds in order. */
  lemma {:induction false} InsertFits(t: Node, p: Point, even: bool, r: Rect)
    requires Framed(t, r, even) && Ordered(t, even)
    requires Within(Points(t) + {p}, r)
    ensures HasRects(t) && Fits(t, p, even)
    decreases t
  {
    FramedRects(t, r, even);
    if t != Nil && p != t.item {
      ChildWithin(t, r, even);
      assert Inside(r, t.item);
      if Less(p, t.item, even) {
        InsertFits(t.left, p, !even, LeftRect(r, t.item, even));
      } else {
        InsertFits(t.right, p, !even, RightRect(r, t.item, even));
      }
    }
  }

  /** The order is kept, and a node is made exactly for a new point. */
  lemma {:induction false} InsertOrdered(t: Node, p: Point, even: bool)
    requires HasRects(t) && Ordered(t, even) && Fits(t, p, even)
    ensures Ordered(InsertAt(t, p, even).value.0, even)
    ensures InsertAt(t, p, even).value.1 <==> p !in Points(t)
    decreases t
  {
    if t != Nil && p != t.item {
      if Less(p, t.item, even) {
        InsertOrdered(t.left, p, !even);
        assert p !in Points(t.right);
      } else {
        InsertOrdered(t.right, p, !even);
        assert p !in Points(t.left);
      }
    }
  }

  /** The rectangles stay those of the cuts. */
  lemma {:induction false} InsertFramed(t: Node, p: Point, even: bool, r: Rect)
    requires Framed(t, r, even)
    ensures HasRects(t) && (t != Nil && Fits(t, p, even) ==> Framed(InsertAt(t, p, even).value.0, r, even))
    decreases t
  {
    FramedRects(t, r, even);
    if t != Nil && p != t.item {
      if Less(p, t.item, even) {
        if t.left != Nil {
          InsertFramed(t.left, p, !even, LeftRect(r, t.item, even));
        }
      } else {
        if t.right != Nil {
          InsertFramed(t.right, p, !even, RightRect(r, t.item, even));
        }
      }
    }
  }

  /** insert: a null point is rejected; otherwise the point is stored, the
      root gets the unit square, and the size grows exactly for a new point.
      A new node whose rectangle would have reversed bounds makes `RectHV`
      throw instead. */
  function Insert(tree: Tree, point: Option<Point>): (r: Result<Tree, Error>)
    requires Valid(tree)
    ensures r == Err(NullArgument) <==> point.None?
    ensures r == Err(ReversedBounds) <==> point.Some? && HasRects(tree.root) && !Fits(tree.root, point.value, true)
    ensures r.Ok? ==> && Valid(r.value)
                      && Points(r.value.root) == Points(tree.root) + {point.value}
                      && (point.value in Points(tree.root) ==> r.value == tree)
                      && (point.value !in Points(tree.root) ==> r.value.size == tree.size + 1)
  {
    if point.None? then Err(NullArgument)
    else
      var p := point.value;
      FramedRects(tree.root, Unit, true);
      var inserted := InsertAt(tree.root, p, true);
      if inserted.Err? then Err(ReversedBounds)
      else
        var (root, added) := inserted.value;
        var root' := if root.rect.None? then root.(rect := Some(Unit)) else root;
        InsertOrdered(tree.root, p, true);
        InsertFramed(tree.root, p, true, Unit);
        assert Framed(root', Unit, true);
        Ok(Tree(root', tree.size + if added then 1 else 0))
  }

  /** A tree whose points lie in the unit square accepts every point of the
      unit square, and its points stay there. */
  lemma InsertInUnit(tree: Tree, p: Point)
    requires Valid(tree) && Within(Points(tree.root), Unit) && Inside(Unit, p)
    ensures Insert(tree, Some(p)).Ok? && Within(Points(Insert(tree, Some(p)).value.root), Unit)
  {
    InsertFits(tree.root, p, true, Unit);
  }

  /** A point outside the unit square can break a later insert: after
      (2, 0.5) is stored at the root, (3, 0.5) goes right, and the cut
      [2, 1] x [0, 1] has reversed x bounds. */
  lemma OutsideUnitThrows(p: Point, q: Point)
    requires p == Point(2.0, 0.5) && q == Point(3.0, 0.5)
    ensures Insert(Empty(), Some(p)).Ok?
    ensures Insert(Insert(Empty(), Some(p)).value, Some(q)) == Err(ReversedBounds)
  {
  }

  // ---------------------------------------------------------------------
  // contains

  /** contains: a null point is rejected; otherwise the search walks down
      the split comparisons until it meets the point or falls off. */
  method Contains(tree: Tree, point: Option<Point>) returns (r: Result<bool, Error>)
    requires Valid(tree)
    ensures r.Err? <==> point.None?
    ensures r.Ok? ==> (r.value <==> point.value in Points(tree.root))
  {
    if point.None? {
      return Err(NullArgument);
    }
    var p := point.value;
    var node := tree.root;
    var even := true;
    while node != Nil
      invariant Ordered(node, even)
      invariant p in Points(tree.root) <==> p in Points(node)
      decreases node
    {
      if p == node.item {
        return Ok(true);
      }
      if Less(p, node.item, even) {
        node := node.left;
      } else {
        node := node.right;
      }
      even := !even;
    }
    return Ok(false);
  }

  // ---------------------------------------------------------------------
  // range

  /** The recursive range search into a bag; `LinkedBag.add` puts an item in
      front.  A child is visited only when the query meets its rectangle. */
  function RangeInto(t: Node, q: Rect, bag: seq<Point>): (r: seq<Point>)
    requires t != Nil && HasRects(t)
    ensures forall s :: s in bag ==> s in r
    ensures forall s :: s in r ==> s in bag || (s in Points(t) && Inside(q, s))
    decreases t
  {
    var bag1 := if Inside(q, t.item) then [t.item] + bag else bag;
    var bag2 := if t.left != Nil && Intersects(q, RectOf(t.left)) then RangeInto(t.left, q, bag1) else bag1;
    if t.right != Nil && Intersects(q, RectOf(t.right)) then RangeInto(t.right, q, bag2) else bag2
  }

  /** range: a null rectangle is rejected; otherwise the stored points that
      lie in it. */
  function Range(tree: Tree, rect: Option<Rect>): (r: Result<seq<Point>, Error>)
    requires Valid(tree)
    ensures r.Err? <==> rect.None?
    ensures r.Ok? ==> forall s :: s in r.value ==> s in Points(tree.root) && Inside(rect.value, s)
  {
    if rect.None? then Err(NullArgument)
    else if tree.root == Nil then Ok([])
    else
      FramedRects(tree.root, Unit, true);
      Ok(RangeInto(tree.root, rect.value, []))
  }

  lemma InsideIntersects(a: Rect, b: Rect, s: Point)
    requires Inside(a, s) && Inside(b, s)
    ensures Intersects(a, b)
  {
  }

  /** No stored point of the query is missed, provided every point lies in
      its subtree's rectangle. */
  lemma {:induction false} RangeComplete(t: Node, q: Rect, bag: seq<Point>, r: Rect, even: bool)
    requires t != Nil && Ordered(t, even) && Framed(t, r, even) && Within(Points(t), r)
    ensures HasRects(t)
    ensures forall s :: s in Points(t) && Inside(q, s) ==> s in RangeInto(t, q, bag)
    decreases t
  {
    FramedRects(t, r, even);
    ChildWithin(t, r, even);
    var bag1 := if Inside(q, t.item) then [t.item] + bag else bag;
    var bag2 := if t.left != Nil && Intersects(q, RectOf(t.left)) then RangeInto(t.left, q, bag1) else bag1;
    var out := RangeInto(t, q, bag);
    assert forall s :: s in bag2 ==> s in out;
    assert forall s :: s in bag1 ==> s in bag2;
    if t.left != Nil {
      RangeComplete(t.left, q, bag1, LeftRect(r, t.item, even), !even);
      forall s | s in Points(t.left) && Inside(q, s)
        ensures s in bag2
      {
        InsideIntersects(q, LeftRect(r, t.item, even), s);
      }
    }
    if t.right != Nil {
      RangeComplete(t.right, q, bag2, RightRect(r, t.item, even), !even);
      forall s | s in Points(t.right) && Inside(q, s)
        ensures s in out
      {
        InsideIntersects(q, RightRect(r, t.item, even), s);
      }
    }
  }

  /** With every point in the unit square, range returns all stored points
      of the query and no others. */
  lemma RangeExact(tree: Tree, rect: Rect)
    requires Valid(tree) && Within(Points(tree.root), Unit)
    ensures Range(tree, Some(rect)).Ok?
    ensures forall s :: s in Range(tree, Some(rect)).value <==> s in Points(tree.root) && Inside(rect, s)
  {
    if tree.root != Nil {
      RangeComplete(tree.root, rect, [], Unit, true);
    }
  }

  // ---------------------------------------------------------------------
  // nearest, over exact squared distances

  /** Point2D.distanceSquaredTo. */
  function Dist(a: Point, b: Point): real
  {
    (a.x - b.x) * (a.x - b.x) + (a.y - b.y) * (a.y - b.y)
  }

  /** The distance from a coordinate to an interval, signed as in
      RectHV.distanceSquaredTo. */
  function Gap(lo: real, hi: real, v: real): real
  {
    if v < lo then v - lo else if v > hi then v - hi else 0.0
  }

  /** RectHV.distanceSquaredTo. */
  function RectDist(r: Rect, p: Point): real
  {
    Gap(r.xmin, r.xmax, p.x) * Gap(r.xmin, r.xmax, p.x) + Gap(r.ymin, r.ymax, p.y) * Gap(r.ymin, r.ymax, p.y)
  }

  /** The best distance so far; the source starts from positive infinity. */
  datatype Bound = Infinity | Finite(v: real)

  predicate Below(d: real, b: Bound)
  {
    b.Infinity? || d < b.v
  }

  /** The recursive nearest-neighbour search: the node's point replaces the
      best when strictly closer; with two children the nearer rectangle is
      searched first and the other only when its rectangle is strictly
      closer than the best so far; a single child likewise. */
  function NearestFrom(t: Node, p: Point, min: Bound): (r: Option<Point>)
    requires t != Nil && HasRects(t)
    ensures r.Some? ==> r.value in Points(t) && Below(Dist(r.value, p), min)
    ensures min.Infinity? ==> r.Some?
    decreases t
  {
    var d := Dist(t.item, p);
    var result := if Below(d, min) then Some(t.item) else None;
    var min1 := if Below(d, min) then Finite(d) else min;
    if t.left != Nil && t.right != Nil then
      var ld := RectDist(RectOf(t.left), p);
      var rd := RectDist(RectOf(t.right), p);
      if ld < rd then
        var nl := NearestFrom(t.left, p, min1);
        var result2 := if nl.Some? then nl else result;
        var min2 := if nl.Some? then Finite(Dist(nl.value, p)) else min1;
        if Below(rd, min2) then
          var nr := NearestFrom(t.right, p, min2);
          if nr.Some? then nr else result2
        else result2
      else
        var nr := NearestFrom(t.right, p, min1);
        var result2 := if nr.Some? then nr else result;
        var min2 := if nr.Some? then Finite(Dist(nr.value, p)) else min1;
        if Below(ld, min2) then
          var nl := NearestFrom(t.left, p, min2);
          if nl.Some? then nl else result2
        else result2
    else if t.left != Nil || t.right != Nil then
      var child := if t.left != Nil then t.left else t.right;
      if Below(RectDist(RectOf(child), p), min1) then
        var n := NearestFrom(child, p, min1);
        if n.Some? then n else result
      else result
    else result
  }

  /** nearest: a null point is rejected, an empty tree gives null, and
      otherwise some stored point. */
  function Nearest(tree: Tree, point: Option<Point>): (r: Result<Option<Point>, Error>)
    requires Valid(tree)
    ensures r.Err? <==> point.None?
    ensures r.Ok? ==> (r.value.None? <==> Points(tree.root) == {})
    ensures r.Ok? && r.value.Some? ==> r.value.value in Points(tree.root)
  {
    if point.None? then Err(NullArgument)
    else if IsEmpty(tree) then Ok(None)
    else
      FramedRects(tree.root, Unit, true);
      Ok(NearestFrom(tree.root, point.value, Infinity))
  }

  /** No point of `s` is strictly closer to `p` than the bound. */
  predicate AtLeast(s: set<Point>, p: Point, b: Bound)
  {
    forall q :: q in s ==> !Below(Dist(q, p), b)
  }

  lemma SquareLe(a: real, b: real)
    requires 0.0 <= a <= b
    ensures a * a <= b * b
  {
    assert b * b - a * a == (b - a) * (b + a);
  }

  /** The gap to an interval is no more than the distance to any of its points. */
  lemma GapLe(lo: real, hi: real, v: real, w: real)
    requires lo <= w <= hi
    ensures Gap(lo, hi, v) * Gap(lo, hi, v) <= (w - v) * (w - v)
  {
    var g := Gap(lo, hi, v);
    if v < lo {
      SquareLe(lo - v, w - v);
      assert g * g == (lo - v) * (lo - v);
    } else if v > hi {
      SquareLe(v - hi, v - w);
      assert (w - v) * (w - v) == (v - w) * (v - w);
    }
  }

  /** RectHV.distanceSquaredTo is a lower bound for the points inside. */
  lemma RectDistLe(r: Rect, p: Point, q: Point)
    requires Inside(r, q)
    ensures RectDist(r, p) <= Dist(q, p)
  {
    GapLe(r.xmin, r.xmax, p.x, q.x);
    GapLe(r.ymin, r.ymax, p.y, q.y);
  }

  /** A subtree whose rectangle is not strictly closer than the bound holds
      no point strictly closer either. */
  lemma Pruned(s: set<Point>, r: Rect, p: Point, b: Bound)
    requires Within(s, r) && !Below(RectDist(r, p), b)
    ensures AtLeast(s, p, b)
  {
    forall q | q in s
      ensures !Below(Dist(q, p), b)
    {
      RectDistLe(r, p, q);
    }
  }

  /** One step of the search: after a child has been searched from bound `m`
      (or skipped, as `None`), the best so far covers both parts. */
  lemma Step(seen: set<Point>, c: set<Point>, p: Point, m: Bound, n: Option<Point>)
    requires AtLeast(seen, p, m)
    requires n.None? ==> AtLeast(c, p, m)
    requires n.Some? ==> Below(Dist(n.value, p), m) && AtLeast(c, p, Finite(Dist(n.value, p)))
    ensures AtLeast(seen + c, p, if n.Some? then Finite(Dist(n.value, p)) else m)
  {
  }

  /** The bound that goes with a result: the original one while nothing is
      found, the found point's distance after. */
  function Best(r: Option<Point>, p: Point, min: Bound): Bound
  {
    if r.Some? then Finite(Dist(r.value, p)) else min
  }

  /** With every point inside its subtree's rectangle, the search finds a
      point of least distance among those strictly below the bound, and
      finds none only when there is none. */
  lemma {:induction false} NearestOptimal(t: Node, p: Point, min: Bound, r: Rect, even: bool)
    requires t != Nil && Ordered(t, even) && Framed(t, r, even) && Within(Points(t), r)
    ensures HasRects(t)
    ensures AtLeast(Points(t), p, Best(NearestFrom(t, p, min), p, min))
    decreases t, 1
  {
    FramedRects(t, r, even);
    if t.left != Nil && t.right != Nil {
      NearestTwo(t, p, min, r, even);
    } else {
      ChildWithin(t, r, even);
      var lr, rr := LeftRect(r, t.item, even), RightRect(r, t.item, even);
      var d := Dist(t.item, p);
      var min1 := if Below(d, min) then Finite(d) else min;
      assert AtLeast({t.item}, p, min1);
      if t.left != Nil {
        if Below(RectDist(lr, p), min1) {
          NearestOptimal(t.left, p, min1, lr, !even);
          Step({t.item}, Points(t.left), p, min1, NearestFrom(t.left, p, min1));
        } else {
          Pruned(Points(t.left), lr, p, min1);
        }
      } else if t.right != Nil {
        if Below(RectDist(rr, p), min1) {
          NearestOptimal(t.right, p, min1, rr, !even);
          Step({t.item}, Points(t.right), p, min1, NearestFrom(t.right, p, min1));
        } else {
          Pruned(Points(t.right), rr, p, min1);
        }
      }
    }
  }

  /** The case of two children: the nearer rectangle first, then the other
      one unless it is pruned. */
  lemma {:induction false} NearestTwo(t: Node, p: Point, min: Bound, r: Rect, even: bool)
    requires t != Nil && t.left != Nil && t.right != Nil
    requires Ordered(t, even) && Framed(t, r, even) && Within(Points(t), r)
    ensures HasRects(t)
    ensures AtLeast(Points(t), p, Best(NearestFrom(t, p, min), p, min))
    decreases t, 0
  {
    FramedRects(t, r, even);
    ChildWithin(t, r, even);
    var lr, rr := LeftRect(r, t.item, even), RightRect(r, t.item, even);
    var d := Dist(t.item, p);
    var min1 := if Below(d, min) then Finite(d) else min;
    assert AtLeast({t.item}, p, min1);
    var ld := RectDist(lr, p);
    var rd := RectDist(rr, p);
    if ld < rd {
      var nl := NearestFrom(t.left, p, min1);
      NearestOptimal(t.left, p, min1, lr, !even);
      Step({t.item}, Points(t.left), p, min1, nl);
      var min2 := if nl.Some? then Finite(Dist(nl.value, p)) else min1;
      if Below(rd, min2) {
        var nr := NearestFrom(t.right, p, min2);
        NearestOptimal(t.right, p, min2, rr, !even);
        Step({t.item} + Points(t.left), Points(t.right), p, min2, nr);
      } else {
        Pruned(Points(t.right), rr, p, min2);
      }
    } else {
      var nr := NearestFrom(t.right, p, min1);
      NearestOptimal(t.right, p, min1, rr, !even);
      Step({t.item}, Points(t.right), p, min1, nr);
      var min2 := if nr.Some? then Finite(Dist(nr.value, p)) else min1;
      if Below(ld, min2) {
        var nl := NearestFrom(t.left, p, min2);
        NearestOptimal(t.left, p, min2, lr, !even);
        Step({t.item} + Points(t.right), Points(t.left), p, min2, nl);
      } else {
        Pruned(Points(t.left), lr, p, min2);
      }
    }
  }

  /** With every point in the unit square, nearest returns a stored point no
      farther from the query than any other. */
  lemma NearestIsNearest(tree: Tree, p: Point)
    requires Valid(tree) && Within(Points(tree.root), Unit) && Points(tree.root) != {}
    ensures Nearest(tree, Some(p)).Ok? && Nearest(tree, Some(p)).value.Some?
    ensures forall q :: q in Points(tree.root) ==> Dist(Nearest(tree, Some(p)).value.value, p) <= Dist(q, p)
  {
    NearestOptimal(tree.root, p, Infinity, Unit, true);
  }
}

/** Pixel coordinates, 4-connectivity and the connected regions of the
    foreground (cells equal to 1) of a grid of integer samples.

    A grid is a sequence of rows; a point is addressed as (x, y), x the
    column and y the row, as in the labelling code. */
module Grid {

  datatype Point = Point(x: int, y: int)

  type Grid = seq<seq<int>>

  /** The four neighbours of p, in the order the flood fill tries them:
      left, right, up, down. */
  function Neighbours(p: Point): (ns: seq<Point>)
    ensures |ns| == 4
    ensures forall q :: q in ns <==> Adjacent(p, q)
  {
    [Point(p.x - 1, p.y), Point(p.x + 1, p.y), Point(p.x, p.y - 1), Point(p.x, p.y + 1)]
  }

  /** p and q share an edge. */
  predicate Adjacent(p: Point, q: Point)
  {
    (p.y == q.y && (q.x == p.x - 1 || q.x == p.x + 1)) ||
    (p.x == q.x && (q.y == p.y - 1 || q.y == p.y + 1))
  }

  /** Every row has the same width w, and there are h rows. */
  predicate Rectangular(g: Grid, h: int, w: int)
  {
    |g| == h && forall y :: 0 <= y < |g| ==> |g[y]| == w
  }

  predicate InGrid(g: Grid, p: Point)
  {
    0 <= p.y < |g| && 0 <= p.x < |g[p.y]|
  }

  function At(g: Grid, p: Point): int
    requires InGrid(g, p)
  {
    g[p.y][p.x]
  }

  /** p is an unlabelled foreground cell of g. */
  predicate Fg(g: Grid, p: Point)
  {
    InGrid(g, p) && g[p.y][p.x] == 1
  }

  /** All the cells of g. */
  ghost function Cells(g: Grid): set<Point>
  {
    set y, x | 0 <= y < |g| && 0 <= x < |g[y]| :: Point(x, y)
  }

  lemma InCells(g: Grid, p: Point)
    ensures p in Cells(g) <==> InGrid(g, p)
  {
    if InGrid(g, p) {
      assert Point(p.x, p.y) in Cells(g);
    }
  }

  /** A non-empty walk through foreground cells, each step to an adjacent cell. */
  ghost predicate IsPath(g: Grid, path: seq<Point>)
  {
    && |path| > 0
    && (forall i :: 0 <= i < |path| ==> Fg(g, path[i]))
    && (forall i :: 0 <= i < |path| - 1 ==> Adjacent(path[i], path[i + 1]))
  }

  /** q can be reached from s through 4-connected foreground cells. */
  ghost predicate Connected(g: Grid, s: Point, q: Point)
  {
    exists path :: IsPath(g, path) && path[0] == s && path[|path| - 1] == q
  }

  /** The 4-connected component of the foreground that contains s
      (empty when s is not a foreground cell). */
  ghost function Region(g: Grid, s: Point): (r: set<Point>)
    ensures forall q :: q in r <==> Connected(g, s, q)
  {
    ConnectedInCells(g, s);
    set q | q in Cells(g) && Connected(g, s, q)
  }

  lemma ConnectedInCells(g: Grid, s: Point)
    ensures forall q :: Connected(g, s, q) ==> q in Cells(g)
  {
    forall q | Connected(g, s, q) ensures q in Cells(g) {
      var path :| IsPath(g, path) && path[0] == s && path[|path| - 1] == q;
      InCells(g, q);
    }
  }

  /** No cell of s outside pending has an adjacent foreground cell outside s. */
  ghost predicate ClosedBeyond(g: Grid, s: set<Point>, pending: seq<Point>)
  {
    forall p, q {:trigger Adjacent(p, q)} :: p in s && p !in pending && Adjacent(p, q) && Fg(g, q) ==> q in s
  }

  /** A set of cells from which no 4-neighbour step leads to a foreground
      cell outside the set. */
  ghost predicate Closed(g: Grid, s: set<Point>)
  {
    ClosedBeyond(g, s, [])
  }

  // ---------------------------------------------------------------------
  // Lemmas about connectivity

  lemma SeedInRegion(g: Grid, s: Point)
    requires Fg(g, s)
    ensures s in Region(g, s)
  {
    assert IsPath(g, [s]);
  }

  lemma RegionIsForeground(g: Grid, s: Point, q: Point)
    requires q in Region(g, s)
    ensures Fg(g, q) && Fg(g, s)
  {
    var path :| IsPath(g, path) && path[0] == s && path[|path| - 1] == q;
  }

  /** One more step from a reachable cell to an adjacent foreground cell. */
  lemma ConnectedStep(g: Grid, s: Point, p: Point, q: Point)
    requires Connected(g, s, p) && Adjacent(p, q) && Fg(g, q)
    ensures Connected(g, s, q)
  {
    var path :| IsPath(g, path) && path[0] == s && path[|path| - 1] == p;
    var path' := path + [q];
    assert IsPath(g, path');
    assert path'[0] == s && path'[|path'| - 1] == q;
  }

  /** A region is closed under steps to adjacent foreground cells. */
  lemma RegionClosed(g: Grid, s: Point)
    ensures Closed(g, Region(g, s))
  {
    forall p, q | p in Region(g, s) && Adjacent(p, q) && Fg(g, q)
      ensures q in Region(g, s)
    {
      ConnectedStep(g, s, p, q);
    }
  }

  /** A closed set that holds the seed holds every cell of the seed's region:
      this is why a flood that stops only when no stamped cell has an
      unstamped foreground neighbour has stamped the whole region. */
  lemma {:induction false} ClosedHoldsRegion(g: Grid, s: Point, v: set<Point>)
    requires s in v && Closed(g, v)
    ensures Region(g, s) <= v
  {
    forall q | q in Region(g, s) ensures q in v {
      var path :| IsPath(g, path) && path[0] == s && path[|path| - 1] == q;
      PathInside(g, path, v, |path| - 1);
    }
  }

  lemma {:induction false} PathInside(g: Grid, path: seq<Point>, v: set<Point>, i: nat)
    requires IsPath(g, path) && path[0] in v && Closed(g, v) && i < |path|
    ensures path[i] in v
  {
    if i > 0 {
      PathInside(g, path, v, i - 1);
      assert Adjacent(path[i - 1], path[i]) && Fg(g, path[i]);
    }
  }

  /** Reachability is symmetric: walk the path backwards. */
  lemma ConnectedSymmetric(g: Grid, s: Point, q: Point)
    requires Connected(g, s, q)
    ensures Connected(g, q, s)
  {
    var path :| IsPath(g, path) && path[0] == s && path[|path| - 1] == q;
    var back := seq(|path|, i requires 0 <= i < |path| => path[|path| - 1 - i]);
    forall i | 0 <= i < |back| - 1 ensures Adjacent(back[i], back[i + 1]) {
      assert Adjacent(path[|path| - 2 - i], path[|path| - 1 - i]);
    }
    assert IsPath(g, back);
  }

  /** Two regions are either the same set or disjoint. */
  lemma RegionsEqualOrDisjoint(g: Grid, s: Point, t: Point)
    ensures Region(g, s) == Region(g, t) || Region(g, s) !! Region(g, t)
  {
    if !(Region(g, s) !! Region(g, t)) {
      var m :| m in Region(g, s) && m in Region(g, t);
      ConnectedSymmetric(g, t, m);
      // both regions equal the region of m
      RegionOfMember(g, s, m);
      RegionOfMember(g, t, m);
    }
  }

  lemma RegionOfMember(g: Grid, s: Point, m: Point)
    requires m in Region(g, s)
    ensures Region(g, m) == Region(g, s)
  {
    RegionIsForeground(g, s, m);
    SeedInRegion(g, m);
    SeedInRegion(g, s);
    RegionClosed(g, s);
    ClosedHoldsRegion(g, m, Region(g, s));
    ConnectedSymmetric(g, s, m);
    RegionClosed(g, m);
    ClosedHoldsRegion(g, s, Region(g, m));
  }

  /** Relabelling a closed set of cells does not change the region of a
      foreground cell outside that set. This is what the row-major scan
      relies on: a seed it meets still has its whole component unlabelled. */
  lemma RegionPreserved(g0: Grid, g: Grid, done: set<Point>, s: Point)
    requires |g| == |g0| && forall y :: 0 <= y < |g0| ==> |g[y]| == |g0[y]|
    requires forall p :: InGrid(g0, p) && p in done ==> At(g, p) != 1
    requires forall p :: InGrid(g0, p) && p !in done ==> At(g, p) == At(g0, p)
    requires Closed(g0, done) && Fg(g0, s) && s !in done
    ensures Region(g, s) == Region(g0, s)
  {
    forall q | q in Region(g, s) ensures q in Region(g0, s) {
      var path :| IsPath(g, path) && path[0] == s && path[|path| - 1] == q;
      assert IsPath(g0, path);
    }
    forall q | q in Region(g0, s) ensures q in Region(g, s) {
      var path :| IsPath(g0, path) && path[0] == s && path[|path| - 1] == q;
      forall i | 0 <= i < |path| ensures Fg(g, path[i]) {
        PathAvoids(g0, path, done, i);
      }
      assert IsPath(g, path);
    }
  }

  lemma {:induction false} PathAvoids(g0: Grid, path: seq<Point>, done: set<Point>, i: nat)
    requires IsPath(g0, path) && path[0] !in done && Closed(g0, done) && i < |path|
    ensures path[i] !in done
  {
    if i > 0 {
      PathAvoids(g0, path, done, i - 1);
      assert Adjacent(path[i], path[i - 1]) && Fg(g0, path[i - 1]);
    }
  }
}

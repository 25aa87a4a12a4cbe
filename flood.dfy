/** Flood fill of one 4-connected foreground component of an image held in
    an array2<int> (rows first): 0 is background, 1 unlabelled foreground,
    any other value a label already stamped. */
module FloodFill {
  import opened Grid
  import opened Components

  /** The current contents of the image as a value. */
  ghost function Snapshot(img: array2<int>): (g: Grid)
    reads img
    ensures Rectangular(g, img.Length0, img.Length1)
    ensures forall y, x :: 0 <= y < img.Length0 && 0 <= x < img.Length1 ==> g[y][x] == img[y, x]
  {
    seq(img.Length0, y reads img requires 0 <= y < img.Length0 =>
      seq(img.Length1, x reads img requires 0 <= x < img.Length1 => img[y, x]))
  }

  /** (x, y) is a pixel of the image. */
  function InsideImage(img: array2<int>, x: int, y: int): (r: bool)
    reads img
    ensures r <==> InGrid(Snapshot(img), Point(x, y))
  {
    x < img.Length1 && y < img.Length0 && x >= 0 && y >= 0
  }

  /** The test the flood applies to a neighbour (x, y): inside the image,
      and still 1. The bounds are checked before the pixel is read. */
  function Unlabelled(img: array2<int>, x: int, y: int): (r: bool)
    reads img
    ensures r <==> Fg(Snapshot(img), Point(x, y))
  {
    InsideImage(img, x, y) && img[y, x] == 1
  }

  /** What reading a neighbour does when the pixel is read before its
      bounds are checked, with the indexing rules of Python sequences: an
      index in [-n, 0) counts from the end, one outside [-n, n) raises. */
  datatype Probe = IndexError | Read(unlabelled: bool)

  /** The neighbour test as written: read g at (n.x, n.y), then compare
      with 1, then check the bounds. */
  function ProbeAsWritten(g: Grid, n: Point): (r: Probe)
    ensures InGrid(g, n) ==> r == Read(g[n.y][n.x] == 1)
    ensures r.Read? ==> (r.unlabelled <==> Fg(g, n))
  {
    if !(-|g| <= n.y < |g|) then IndexError
    else
      var row := g[if n.y < 0 then n.y + |g| else n.y];
      if !(-|row| <= n.x < |row|) then IndexError
      else Read(row[if n.x < 0 then n.x + |row| else n.x] == 1 && InGrid(g, n))
  }

  /** Reading before checking raises for the right neighbour of any pixel in
      the last column, which the flood tries as soon as it stamps that pixel
      (when the pixel no longer holds 1: only the image's shape matters). */
  lemma RightEdgeRaises(g: Grid, p: Point)
    requires InGrid(g, p) && p.x == |g[p.y]| - 1
    ensures ProbeAsWritten(g, Neighbours(p)[1]) == IndexError
  {
  }

  /** Likewise for the neighbour below any pixel in the last row. */
  lemma BottomEdgeRaises(g: Grid, p: Point)
    requires InGrid(g, p) && p.y == |g| - 1
    ensures ProbeAsWritten(g, Neighbours(p)[3]) == IndexError
  {
  }

  /** The smallest case: a one-pixel image whose pixel is 1. */
  lemma OnePixelRaises()
    ensures Fg([[1]], Point(0, 0))
    ensures ProbeAsWritten([[1]], Neighbours(Point(0, 0))[1]) == IndexError
  {
  }

  /** Stamp tag into every pixel 4-connected to the seed (x, y) through
      pixels equal to 1, counting each stamped pixel once in c and widening
      c's box to cover it. Pending pixels are kept on an explicit stack; a
      pixel is stamped when it is pushed, so it is never pushed twice. */
  method Flood(img: array2<int>, x: int, y: int, tag: int, c: Component)
    requires 0 <= y < img.Length0 && 0 <= x < img.Length1 && img[y, x] == 1
    requires tag != 1
    modifies img, c
    ensures StampedAs(img, old(Snapshot(img)), Region(old(Snapshot(img)), Point(x, y)), tag)
    ensures BoxState(c, Region(old(Snapshot(img)), Point(x, y)),
                     Fields(old(c.tag), old(c.nPixels), old(c.top), old(c.left), old(c.bottom), old(c.right)))
  {
    ghost var g0 := Snapshot(img);
    ghost var seed := Point(x, y);
    ghost var start := Fields(c.tag, c.nPixels, c.top, c.left, c.bottom, c.right);
    ghost var region := Region(g0, seed);
    SeedInRegion(g0, seed);
    RegionClosed(g0, seed);
    InCells(g0, seed);

    StampPixel(img, c, Point(x, y), tag, g0, {}, start);
    ghost var stamped := Drain(img, c, [Point(x, y)], tag, g0, region, {seed}, start);
    ClosedHoldsRegion(g0, seed, stamped);
    assert stamped == region;
  }

  /** Take pixels off the stack until it is empty, trying the neighbours of
      each. On return the stamped set is closed: no stamped pixel has an
      unstamped foreground neighbour. */
  method Drain(img: array2<int>, c: Component, stack: seq<Point>, tag: int,
               ghost g0: Grid, ghost region: set<Point>, ghost stamped: set<Point>,
               ghost start: Fields)
    returns (ghost stamped': set<Point>)
    requires tag != 1 && Closed(g0, region)
    requires stamped <= region && stamped <= Cells(g0)
    requires forall p :: p in stack ==> p in stamped
    requires ClosedBeyond(g0, stamped, stack)
    requires StampedAs(img, g0, stamped, tag) && BoxState(c, stamped, start)
    modifies img, c
    ensures stamped <= stamped' <= region
    ensures Closed(g0, stamped')
    ensures StampedAs(img, g0, stamped', tag) && BoxState(c, stamped', start)
  {
    ghost var cells := Cells(g0);
    var stack := stack;
    stamped' := stamped;
    while stack != []
      invariant stamped <= stamped' <= region && stamped' <= cells
      invariant forall p :: p in stack ==> p in stamped'
      invariant ClosedBeyond(g0, stamped', stack)
      invariant StampedAs(img, g0, stamped', tag) && BoxState(c, stamped', start)
      decreases |cells - stamped'|, |stack|
    {
      var p := stack[|stack| - 1];
      PopSplit(stack);
      stack := stack[..|stack| - 1];
      stack, stamped' := VisitNeighbours(img, c, p, tag, stack, g0, region, stamped', start);
    }
  }

  /** Try the four neighbours of p, in the order left, right, up, down. */
  method VisitNeighbours(img: array2<int>, c: Component, p: Point, tag: int, stack: seq<Point>,
                         ghost g0: Grid, ghost region: set<Point>, ghost stamped: set<Point>,
                         ghost start: Fields)
    returns (stack': seq<Point>, ghost stamped': set<Point>)
    requires tag != 1 && Closed(g0, region)
    requires stamped <= Cells(g0) && stamped <= region && p in stamped
    requires forall q :: q in stack ==> q in stamped
    requires ClosedBeyond(g0, stamped, stack + [p])
    requires StampedAs(img, g0, stamped, tag) && BoxState(c, stamped, start)
    modifies img, c
    ensures stamped <= stamped' <= Cells(g0) && stamped' <= region
    ensures forall q :: q in stack' ==> q in stamped'
    ensures ClosedBeyond(g0, stamped', stack')
    ensures |Cells(g0) - stamped'| < |Cells(g0) - stamped| || (stamped' == stamped && stack' == stack)
    ensures stamped' == stamped + (set q | q in Neighbours(p) && Fg(g0, q))
    ensures forall q :: q in stack' <==> q in stack || (q in Neighbours(p) && Fg(g0, q) && q !in stamped)
    ensures StampedAs(img, g0, stamped', tag) && BoxState(c, stamped', start)
  {
    ghost var cells := Cells(g0);
    stack', stamped' := stack, stamped;
    var ns := Neighbours(p);
    assert Found(g0, ns, 0) == {};
    for i := 0 to 4
      invariant Visiting(g0, cells, region, p, ns, i, stamped, stack, stamped', stack')
      invariant StampedAs(img, g0, stamped', tag) && BoxState(c, stamped', start)
    {
      var n := ns[i];
      ghost var before, stackBefore := stamped', stack';
      if Fg(g0, n) && n !in stamped' {
        assert Adjacent(p, n);
        InCells(g0, n);
      }
      stack', stamped' := VisitNeighbour(img, c, n, tag, stack', g0, stamped', start);
      VisitingStep(g0, cells, region, p, ns, i, stamped, stack, before, stackBefore, stamped', stack');
    }
    ClosedAfterNeighbours(g0, stamped', stack', p, ns);
    TriedAll(g0, p, ns, stamped, stack, stamped', stack');
  }

  /** The neighbours among the first i of ns that are foreground cells. */
  ghost function Found(g0: Grid, ns: seq<Point>, i: int): set<Point>
    requires 0 <= i <= |ns|
  {
    set j | 0 <= j < i && Fg(g0, ns[j]) :: ns[j]
  }

  /** After trying the first i neighbours, starting from stamped and stack:
      the foreground ones are stamped, and exactly those not stamped before
      have been pushed. */
  ghost predicate Tried(g0: Grid, ns: seq<Point>, i: int,
                        stamped: set<Point>, stack: seq<Point>, stamped': set<Point>, stack': seq<Point>)
    requires 0 <= i <= |ns|
  {
    && stamped' == stamped + Found(g0, ns, i)
    && forall q :: q in stack' <==> q in stack || (q in Found(g0, ns, i) && q !in stamped)
  }

  /** The loop invariant of VisitNeighbours over the values it tracks: Tried,
      and the stamped set growing inside the region and closed but for the
      stack and p. */
  ghost predicate Visiting(g0: Grid, cells: set<Point>, region: set<Point>, p: Point, ns: seq<Point>, i: int,
                           stamped: set<Point>, stack: seq<Point>, stamped': set<Point>, stack': seq<Point>)
    requires 0 <= i <= |ns|
  {
    && Tried(g0, ns, i, stamped, stack, stamped', stack')
    && stamped <= stamped' <= cells && stamped' <= region && p in stamped'
    && (forall q :: q in stack' ==> q in stamped')
    && ClosedBeyond(g0, stamped', stack' + [p])
    && (forall j :: 0 <= j < i && Fg(g0, ns[j]) ==> ns[j] in stamped')
    && (|cells - stamped'| < |cells - stamped| || (stamped' == stamped && stack' == stack))
  }

  /** Trying one more neighbour keeps Visiting. */
  lemma VisitingStep(g0: Grid, cells: set<Point>, region: set<Point>, p: Point, ns: seq<Point>, i: int,
                     stamped: set<Point>, stack: seq<Point>,
                     before: set<Point>, stackBefore: seq<Point>, after: set<Point>, stackAfter: seq<Point>)
    requires ns == Neighbours(p) && 0 <= i < 4
    requires Visiting(g0, cells, region, p, ns, i, stamped, stack, before, stackBefore)
    requires Fg(g0, ns[i]) && ns[i] !in before ==> ns[i] in cells && ns[i] in region
    requires if Fg(g0, ns[i]) && ns[i] !in before then after == before + {ns[i]} && stackAfter == stackBefore + [ns[i]]
             else after == before && stackAfter == stackBefore
    ensures Visiting(g0, cells, region, p, ns, i + 1, stamped, stack, after, stackAfter)
  {
    TriedStep(g0, p, ns, i, stamped, stack, before, stackBefore, after, stackAfter);
    NeighbourStep(g0, cells, region, before, after, stackBefore, stackAfter, p, ns, i);
  }

  /** Trying one more neighbour keeps Tried. */
  lemma TriedStep(g0: Grid, p: Point, ns: seq<Point>, i: int, stamped: set<Point>, stack: seq<Point>,
                  before: set<Point>, stackBefore: seq<Point>, after: set<Point>, stackAfter: seq<Point>)
    requires ns == Neighbours(p) && 0 <= i < 4
    requires Tried(g0, ns, i, stamped, stack, before, stackBefore)
    requires if Fg(g0, ns[i]) && ns[i] !in before then after == before + {ns[i]} && stackAfter == stackBefore + [ns[i]]
             else after == before && stackAfter == stackBefore
    ensures Tried(g0, ns, i + 1, stamped, stack, after, stackAfter)
  {
    var n := ns[i];
    assert Found(g0, ns, i + 1) == Found(g0, ns, i) + (if Fg(g0, n) then {n} else {});
    assert n !in Found(g0, ns, i);
  }

  /** All four tried: the foreground neighbours of p are stamped, and those
      not stamped before are pushed. */
  lemma TriedAll(g0: Grid, p: Point, ns: seq<Point>,
                 stamped: set<Point>, stack: seq<Point>, stamped': set<Point>, stack': seq<Point>)
    requires ns == Neighbours(p)
    requires Tried(g0, ns, 4, stamped, stack, stamped', stack')
    ensures stamped' == stamped + (set q | q in Neighbours(p) && Fg(g0, q))
    ensures forall q :: q in stack' <==> q in stack || (q in Neighbours(p) && Fg(g0, q) && q !in stamped)
  {
    forall q | q in Neighbours(p) && Fg(g0, q) ensures q in Found(g0, ns, 4) {
      var j :| 0 <= j < 4 && ns[j] == q;
    }
    assert Found(g0, ns, 4) == set q | q in Neighbours(p) && Fg(g0, q);
  }

  /** Try one neighbour n of a pixel taken from the stack: when n is inside
      the image and still equal to 1, stamp it, count it and push it. */
  method VisitNeighbour(img: array2<int>, c: Component, n: Point, tag: int, stack: seq<Point>,
                        ghost g0: Grid, ghost stamped: set<Point>,
                        ghost start: Fields)
    returns (stack': seq<Point>, ghost stamped': set<Point>)
    requires tag != 1
    requires StampedAs(img, g0, stamped, tag) && BoxState(c, stamped, start)
    modifies img, c
    ensures StampedAs(img, g0, stamped', tag) && BoxState(c, stamped', start)
    ensures if Fg(g0, n) && n !in stamped then stamped' == stamped + {n} && stack' == stack + [n]
            else stamped' == stamped && stack' == stack
  {
    stack', stamped' := stack, stamped;
    if Unlabelled(img, n.x, n.y) {
      assert Point(n.x, n.y) == n;
      StampPixel(img, c, n, tag, g0, stamped, start);
      stack', stamped' := stack + [n], stamped + {n};
    } else if InGrid(g0, n) {
      assert img[n.y, n.x] == if Point(n.x, n.y) in stamped then tag else g0[n.y][n.x];
    }
  }

  /** Trying the i-th neighbour of p keeps the facts of the loop over the
      neighbours: what is stamped stays within the cells and the region, the
      stack holds only stamped pixels, and the stamped set only grows. */
  lemma NeighbourStep(g0: Grid, cells: set<Point>, region: set<Point>,
                      stamped: set<Point>, stamped': set<Point>, stack: seq<Point>, stack': seq<Point>,
                      p: Point, ns: seq<Point>, i: int)
    requires 0 <= i < |ns|
    requires stamped <= cells && stamped <= region && p in stamped
    requires forall q :: q in stack ==> q in stamped
    requires ClosedBeyond(g0, stamped, stack + [p])
    requires forall j :: 0 <= j < i && Fg(g0, ns[j]) ==> ns[j] in stamped
    requires Fg(g0, ns[i]) && ns[i] !in stamped ==> ns[i] in cells && ns[i] in region
    requires if Fg(g0, ns[i]) && ns[i] !in stamped then stamped' == stamped + {ns[i]} && stack' == stack + [ns[i]]
             else stamped' == stamped && stack' == stack
    ensures stamped <= stamped' <= cells && stamped' <= region && p in stamped'
    ensures forall q :: q in stack' ==> q in stamped'
    ensures ClosedBeyond(g0, stamped', stack' + [p])
    ensures forall j :: 0 <= j < i + 1 && Fg(g0, ns[j]) ==> ns[j] in stamped'
    ensures |cells - stamped'| < |cells - stamped| || (stamped' == stamped && stack' == stack)
  {
    forall p', q | p' in stamped' && p' !in stack' + [p] && Adjacent(p', q) && Fg(g0, q)
      ensures q in stamped'
    {
      assert p' in stamped && p' !in stack + [p];
    }
    if Fg(g0, ns[i]) && ns[i] !in stamped {
      FewerLeft(cells, stamped, ns[i]);
    }
  }

  /** Once all four neighbours of p are tried, p is closed too. */
  lemma ClosedAfterNeighbours(g0: Grid, stamped: set<Point>, stack: seq<Point>, p: Point, ns: seq<Point>)
    requires ns == Neighbours(p)
    requires ClosedBeyond(g0, stamped, stack + [p])
    requires forall j :: 0 <= j < 4 && Fg(g0, ns[j]) ==> ns[j] in stamped
    ensures ClosedBeyond(g0, stamped, stack)
  {
    forall p', q | p' in stamped && p' !in stack && Adjacent(p', q) && Fg(g0, q)
      ensures q in stamped
    {
      if p' == p {
        assert q in ns;
      } else {
        assert p' !in stack + [p];
      }
    }
  }

  lemma PopSplit(s: seq<Point>)
    requires |s| > 0
    ensures s == s[..|s| - 1] + [s[|s| - 1]]
  {
  }

  lemma FewerLeft(cells: set<Point>, stamped: set<Point>, n: Point)
    requires n in cells && n !in stamped
    ensures |cells - (stamped + {n})| == |cells - stamped| - 1
  {
    assert cells - (stamped + {n}) == (cells - stamped) - {n};
  }

  /** Stamp one pixel that is not stamped yet and count it in c. */
  method StampPixel(img: array2<int>, c: Component, n: Point, tag: int, ghost g0: Grid, ghost stamped: set<Point>,
                    ghost start: Fields)
    requires 0 <= n.y < img.Length0 && 0 <= n.x < img.Length1 && n !in stamped
    requires StampedAs(img, g0, stamped, tag) && BoxState(c, stamped, start)
    modifies img, c
    ensures StampedAs(img, g0, stamped + {n}, tag) && BoxState(c, stamped + {n}, start)
  {
    img[n.y, n.x] := tag;
    c.Include(n.x, n.y);
    assert n in stamped + {n};
  }

  /** The image holds tag on the cells of s and its original contents g0
      everywhere else. */
  ghost predicate StampedAs(img: array2<int>, g0: Grid, s: set<Point>, tag: int)
    reads img
  {
    && Rectangular(g0, img.Length0, img.Length1)
    && forall y, x :: 0 <= y < img.Length0 && 0 <= x < img.Length1 ==>
         img[y, x] == if Point(x, y) in s then tag else g0[y][x]
  }

  /** The fields of a record at one moment, as a value. */
  datatype Fields = Fields(tag: int, nPixels: int, top: int, left: int, bottom: int, right: int)

  /** c has counted exactly the cells of s on top of the pixels it started
      with, its tag is the one it started with, and its box is the least
      widening of the starting box that encloses s. */
  ghost predicate BoxState(c: Component, s: set<Point>, start: Fields)
    reads c
  {
    && c.tag == start.tag
    && c.nPixels == start.nPixels + |s|
    && Encloses(c, s)
    && c.top <= start.top && c.left <= start.left && c.bottom >= start.bottom && c.right >= start.right
    && EdgesFrom(c, s, start)
  }

  /** Each edge of c's box is either where it was at the start or is
      touched by a cell of s. */
  ghost predicate EdgesFrom(c: Component, s: set<Point>, start: Fields)
    reads c
  {
    && (c.top == start.top || exists p :: p in s && p.y == c.top)
    && (c.left == start.left || exists p :: p in s && p.x == c.left)
    && (c.bottom == start.bottom || exists p :: p in s && p.y == c.bottom)
    && (c.right == start.right || exists p :: p in s && p.x == c.right)
  }
}

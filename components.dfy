/** The record kept for one connected component while it is flooded: its
    tag, how many pixels it has and its bounding box (top, left, bottom,
    right), and the filter that decides whether it is reported. */
module Components {
  import opened Grid

  function Min(a: int, b: int): int { if a <= b then a else b }
  function Max(a: int, b: int): int { if a >= b then a else b }

  class Component {
    var tag: int
    var nPixels: int
    var top: int
    var left: int
    var bottom: int
    var right: int

    /** A fresh record for a flood seeded at (x, y) of a sizeY-by-sizeX image.
        Top and left start one past the last row and column, bottom and right
        at the seed, so that visiting the seed makes the box exactly the seed. */
    constructor (tag: int, sizeY: int, sizeX: int, y: int, x: int)
      ensures this.tag == tag && nPixels == 0
      ensures top == sizeY && left == sizeX && bottom == y && right == x
    {
      this.tag := tag;
      nPixels := 0;
      top := sizeY;
      left := sizeX;
      bottom := y;
      right := x;
    }

    /** Count the pixel (x, y) and widen the box to cover it. */
    method Include(x: int, y: int)
      modifies this
      ensures tag == old(tag) && nPixels == old(nPixels) + 1
      ensures left == Min(old(left), x) && right == Max(old(right), x)
      ensures top == Min(old(top), y) && bottom == Max(old(bottom), y)
    {
      if x < left {
        left := x;
      }
      if x > right {
        right := x;
      }
      if y < top {
        top := y;
      }
      if y > bottom {
        bottom := y;
      }
      nPixels := nPixels + 1;
    }
  }

  /** The size filter. Height and width are coordinate differences
      (bottom - top, right - left), one less than the number of rows and
      columns the box spans. */
  predicate Accepts(c: Component, minWidth: int, minHeight: int, minPixels: int): (r: bool)
    reads c
    ensures r <==> && c.nPixels >= minPixels
                   && c.bottom - c.top + 1 > minHeight
                   && c.right - c.left + 1 > minWidth
  {
    c.nPixels >= minPixels && c.bottom - c.top >= minHeight && c.right - c.left >= minWidth
  }

  /** Every cell of s lies inside the box of c. */
  ghost predicate Encloses(c: Component, s: set<Point>)
    reads c
  {
    forall p :: p in s ==> c.left <= p.x <= c.right && c.top <= p.y <= c.bottom
  }

  /** The box of c is the smallest one enclosing s: every edge is touched. */
  ghost predicate Tight(c: Component, s: set<Point>)
    reads c
  {
    && Encloses(c, s)
    && (exists p :: p in s && p.y == c.top)
    && (exists p :: p in s && p.x == c.left)
    && (exists p :: p in s && p.y == c.bottom)
    && (exists p :: p in s && p.x == c.right)
  }

  /** The filter is monotone: a component kept under some thresholds is kept
      under any lower ones. */
  lemma AcceptsMonotone(c: Component, minWidth: int, minHeight: int, minPixels: int,
                        lowerWidth: int, lowerHeight: int, lowerPixels: int)
    requires Accepts(c, minWidth, minHeight, minPixels)
    requires lowerWidth <= minWidth && lowerHeight <= minHeight && lowerPixels <= minPixels
    ensures Accepts(c, lowerWidth, lowerHeight, lowerPixels)
  {
  }

  /** Because height and width are differences, a component whose pixels all
      lie in one row has height 0 and is dropped by any positive minimum
      height, and one whose pixels all lie in one column likewise for width. */
  lemma FlatComponentRejected(c: Component, s: set<Point>, minWidth: int, minHeight: int, minPixels: int)
    requires Tight(c, s)
    requires (forall p, q :: p in s && q in s ==> p.y == q.y) || (forall p, q :: p in s && q in s ==> p.x == q.x)
    requires minWidth > 0 && minHeight > 0
    ensures !Accepts(c, minWidth, minHeight, minPixels)
  {
    var t :| t in s && t.y == c.top;
    var b :| b in s && b.y == c.bottom;
    var l :| l in s && l.x == c.left;
    var r :| r in s && r.x == c.right;
  }
}

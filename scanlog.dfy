/** The ghost history of a labelling scan: one entry per flood, and what
    the entries, the image and the records satisfy while the scan runs. */
module ScanLog {
  import opened Grid
  import opened Components
  import opened FloodFill

  /** One flood of the scan: the pixel it started from, the pixels it
      stamped, the record it filled and whether the filter kept it. */
  datatype FloodLog = FloodLog(seed: Point, region: set<Point>, comp: Component, tag: int, kept: bool)

  /** q comes strictly before p in row-major order. */
  predicate Before(q: Point, p: Point)
  {
    q.y < p.y || (q.y == p.y && q.x < p.x)
  }

  /** The records the filter kept, in the order they were flooded. */
  ghost function Kept(log: seq<FloodLog>): seq<Component>
  {
    if log == [] then []
    else Kept(log[..|log| - 1]) + (if log[|log| - 1].kept then [log[|log| - 1].comp] else [])
  }

  /** The tags of the floods as the counter hands them out: the first flood
      gets 2, and each flood gets the tag of the one before, plus one when
      that one was kept; next is the counter after the last flood. */
  ghost predicate Tags(log: seq<FloodLog>, next: int)
  {
    if log == [] then next == 2
    else
      var last := log[|log| - 1];
      Tags(log[..|log| - 1], last.tag) && next == last.tag + (if last.kept then 1 else 0)
  }

  ghost function Records(log: seq<FloodLog>): set<Component>
  {
    set e | e in log :: e.comp
  }

  /** The union of the regions of the log. */
  ghost function Union(log: seq<FloodLog>): set<Point>
  {
    if log == [] then {} else Union(log[..|log| - 1]) + log[|log| - 1].region
  }

  // ---------------------------------------------------------------------
  // What the scan knows when it stands at a pixel

  /** Each flood stamped exactly the component of its seed in the original
      image g0. */
  ghost predicate Floods(g0: Grid, log: seq<FloodLog>)
  {
    forall k :: 0 <= k < |log| ==> log[k].region == Region(g0, log[k].seed)
  }

  /** done is the union of the regions. */
  ghost predicate Covers(log: seq<FloodLog>, done: set<Point>)
  {
    && done == Union(log)
    && (forall k :: 0 <= k < |log| ==> log[k].region <= done)
  }

  ghost predicate Disjoint(log: seq<FloodLog>)
  {
    forall k, k' :: 0 <= k < k' < |log| ==> log[k].region !! log[k'].region
  }

  /** The seeds are in scan order and before pos, and each seed is the first
      pixel of its region in scan order. */
  ghost predicate InScanOrder(log: seq<FloodLog>, pos: Point)
  {
    && (forall k, k' :: 0 <= k < k' < |log| ==> Before(log[k].seed, log[k'].seed))
    && (forall k :: 0 <= k < |log| ==> Before(log[k].seed, pos))
    && (forall k, q :: 0 <= k < |log| && q in log[k].region ==> q == log[k].seed || Before(log[k].seed, q))
  }

  ghost predicate LogState(g0: Grid, log: seq<FloodLog>, done: set<Point>, pos: Point)
  {
    Floods(g0, log) && Covers(log, done) && Disjoint(log) && InScanOrder(log, pos) && Closed(g0, done)
  }

  /** The image g against the original g0: pixels of done are no longer 1
      and hold the tag of their flood, other pixels are as in g0. */
  ghost predicate Stamped(g: Grid, g0: Grid, log: seq<FloodLog>, done: set<Point>)
  {
    && |g| == |g0| && (forall y :: 0 <= y < |g0| ==> |g[y]| == |g0[y]|)
    && (forall p :: InGrid(g0, p) && p in done ==> At(g, p) != 1)
    && (forall p :: InGrid(g0, p) && p !in done ==> At(g, p) == At(g0, p))
    && (forall k, p :: 0 <= k < |log| && InGrid(g0, p) && p in log[k].region ==> At(g, p) == log[k].tag)
  }

  /** g' is g with the pixels of region, and only those, set to tag. */
  ghost predicate Restamped(g': Grid, g: Grid, region: set<Point>, tag: int)
  {
    && |g'| == |g| && (forall y :: 0 <= y < |g| ==> |g'[y]| == |g[y]|)
    && (forall p :: InGrid(g, p) ==> At(g', p) == if p in region then tag else At(g, p))
  }

  /** No pixel before pos is still 1. */
  ghost predicate ScannedPast(g: Grid, g0: Grid, pos: Point)
    requires |g| == |g0| && forall y :: 0 <= y < |g0| ==> |g[y]| == |g0[y]|
  {
    forall p :: InGrid(g0, p) && Before(p, pos) ==> At(g, p) != 1
  }

  ghost predicate GridState(g: Grid, g0: Grid, log: seq<FloodLog>, done: set<Point>, pos: Point)
  {
    Stamped(g, g0, log, done) && ScannedPast(g, g0, pos)
  }

  /** The record of one flood counts the region's pixels, has its box tight
      around the region, carries the flood's tag and was kept exactly when
      the filter accepts it. */
  ghost predicate EntryOk(e: FloodLog, minWidth: int, minHeight: int, minPixels: int)
    reads e.comp
  {
    && e.comp.nPixels == |e.region|
    && Tight(e.comp, e.region)
    && e.comp.tag == e.tag
    && e.kept == Accepts(e.comp, minWidth, minHeight, minPixels)
  }

  /** Every entry of the log is right. */
  ghost predicate EntriesOk(log: seq<FloodLog>, minWidth: int, minHeight: int, minPixels: int)
    reads Records(log)
  {
    forall k :: 0 <= k < |log| ==> EntryOk(log[k], minWidth, minHeight, minPixels)
  }

  /** The kept records are the result, in scan order, tagged 2, 3, ...,
      and next is the tag the next flood gets. */
  ghost predicate Tagged(log: seq<FloodLog>, comps: seq<Component>, next: int)
    reads comps
  {
    && comps == Kept(log)
    && Tags(log, next)
    && next == |comps| + 2
    && (forall j :: 0 <= j < |comps| ==> comps[j].tag == j + 2)
  }

  // ---------------------------------------------------------------------
  // Lemmas for one flood of the scan

  /** A pixel s still equal to 1 starts a new flood: its region in the
      current image g is its region in the original image, lies outside
      done, and comes after s in scan order. */
  lemma FreshRegion(g: Grid, g0: Grid, log: seq<FloodLog>, done: set<Point>, s: Point)
    requires InGrid(g0, s) && InGrid(g, s) && At(g, s) == 1
    requires Closed(g0, done) && GridState(g, g0, log, done, s)
    ensures Region(g, s) == Region(g0, s) && s in Region(g0, s) && Region(g0, s) !! done
    ensures forall q :: q in Region(g0, s) ==> q == s || Before(s, q)
  {
    RegionPreserved(g0, g, done, s);
    SeedInRegion(g0, s);
    forall q | q in Region(g, s) ensures q !in done && (q == s || Before(s, q)) {
      RegionIsForeground(g, s, q);
    }
  }

  /** The flood's postcondition on the array, read on the snapshot. */
  lemma StampedSnapshot(img: array2<int>, g: Grid, region: set<Point>, tag: int)
    requires StampedAs(img, g, region, tag)
    ensures Restamped(Snapshot(img), g, region, tag)
  {
    forall p | InGrid(g, p) ensures At(Snapshot(img), p) == if p in region then tag else At(g, p) {
      assert Point(p.x, p.y) == p;
    }
  }

  /** A fresh record, flooded from its seed s, has a tight box and counts
      exactly its region. */
  lemma SeedBox(c: Component, region: set<Point>, s: Point, sizeY: int, sizeX: int)
    requires s in region && s.y < sizeY && s.x < sizeX
    requires BoxState(c, region, Fields(c.tag, 0, sizeY, sizeX, s.y, s.x))
    ensures c.nPixels == |region| && Tight(c, region)
  {
    assert c.top <= s.y && c.left <= s.x;
    assert c.bottom == s.y || exists p :: p in region && p.y == c.bottom;
    assert c.right == s.x || exists p :: p in region && p.x == c.right;
  }

  lemma KeptSnoc(log: seq<FloodLog>, entry: FloodLog)
    ensures Kept(log + [entry]) == Kept(log) + (if entry.kept then [entry.comp] else [])
  {
    assert (log + [entry])[..|log|] == log;
  }

  lemma TagsSnoc(log: seq<FloodLog>, tag: int, entry: FloodLog)
    requires Tags(log, tag) && entry.tag == tag
    ensures Tags(log + [entry], if entry.kept then tag + 1 else tag)
  {
    assert (log + [entry])[..|log|] == log;
  }

  lemma CoversSnoc(log: seq<FloodLog>, done: set<Point>, entry: FloodLog)
    requires Covers(log, done)
    ensures Covers(log + [entry], done + entry.region)
  {
    var log' := log + [entry];
    forall k | 0 <= k < |log'| ensures log'[k].region <= done + entry.region {
      if k < |log| {
        assert log'[k] == log[k];
      }
    }
    assert log'[..|log|] == log;
  }

  lemma DisjointSnoc(log: seq<FloodLog>, done: set<Point>, entry: FloodLog)
    requires Covers(log, done) && Disjoint(log) && entry.region !! done
    ensures Disjoint(log + [entry])
  {
    var log' := log + [entry];
    forall k, k' | 0 <= k < k' < |log'| ensures log'[k].region !! log'[k'].region {
      assert log'[k] == log[k];
      if k' < |log| {
        assert log'[k'] == log[k'];
      }
    }
  }

  lemma OrderSnoc(log: seq<FloodLog>, entry: FloodLog)
    requires InScanOrder(log, entry.seed)
    requires forall q :: q in entry.region ==> q == entry.seed || Before(entry.seed, q)
    ensures InScanOrder(log + [entry], Point(entry.seed.x + 1, entry.seed.y))
  {
    var log' := log + [entry];
    forall k | 0 <= k < |log'| ensures log'[k] == if k < |log| then log[k] else entry {
    }
  }

  lemma ClosedUnion(g: Grid, a: set<Point>, b: set<Point>)
    requires Closed(g, a) && Closed(g, b)
    ensures Closed(g, a + b)
  {
    forall p, q {:trigger Adjacent(p, q)} | p in a + b && Adjacent(p, q) && Fg(g, q) ensures q in a + b {
      if p in a {
        assert ClosedBeyond(g, a, []);
      } else {
        assert ClosedBeyond(g, b, []);
      }
    }
  }

  /** Logging the flood from s keeps the log consistent, one pixel further on. */
  lemma LogAfterFlood(g0: Grid, log: seq<FloodLog>, done: set<Point>, x: int, y: int, entry: FloodLog)
    requires LogState(g0, log, done, Point(x, y))
    requires entry.seed == Point(x, y) && entry.region == Region(g0, entry.seed) && entry.region !! done
    requires forall q :: q in entry.region ==> q == entry.seed || Before(entry.seed, q)
    ensures LogState(g0, log + [entry], done + entry.region, Point(x + 1, y))
  {
    var s := entry.seed;
    var log' := log + [entry];
    assert Floods(g0, log') by {
      forall k | 0 <= k < |log'| ensures log'[k] == if k < |log| then log[k] else entry {
      }
    }
    CoversSnoc(log, done, entry);
    DisjointSnoc(log, done, entry);
    OrderSnoc(log, entry);
    RegionClosed(g0, s);
    ClosedUnion(g0, done, entry.region);
  }

  /** Stamping the region of s with the next tag keeps the image consistent
      with the log, one pixel further on. */
  lemma GridAfterFlood(g: Grid, g': Grid, g0: Grid, log: seq<FloodLog>, done: set<Point>,
                       x: int, y: int, entry: FloodLog)
    requires GridState(g, g0, log, done, Point(x, y)) && Covers(log, done)
    requires Point(x, y) in entry.region && entry.region !! done && entry.tag != 1
    requires Restamped(g', g, entry.region, entry.tag)
    ensures GridState(g', g0, log + [entry], done + entry.region, Point(x + 1, y))
  {
    var log' := log + [entry];
    forall k, p | 0 <= k < |log'| && InGrid(g0, p) && p in log'[k].region ensures At(g', p) == log'[k].tag {
      if k < |log| {
        assert log'[k] == log[k] && p in done;
      }
    }
  }

  // ---------------------------------------------------------------------
  // Lemmas for the end of the scan

  /** At the end of the scan no pixel is 1, the pixels that were not 1 are
      as they were, and every pixel that was 1 lies in the region of some
      flood. */
  lemma FinalImage(img: array2<int>, g0: Grid, log: seq<FloodLog>, done: set<Point>)
    requires Rectangular(g0, img.Length0, img.Length1)
    requires Floods(g0, log) && Covers(log, done)
    requires GridState(Snapshot(img), g0, log, done, Point(0, img.Length0))
    ensures forall y, x :: 0 <= y < img.Length0 && 0 <= x < img.Length1 ==> img[y, x] != 1
    ensures forall y, x :: 0 <= y < img.Length0 && 0 <= x < img.Length1 && g0[y][x] != 1 ==>
              img[y, x] == g0[y][x]
    ensures forall y, x :: 0 <= y < img.Length0 && 0 <= x < img.Length1 && g0[y][x] == 1 ==>
              exists k :: 0 <= k < |log| && Point(x, y) in log[k].region
  {
    forall y, x | 0 <= y < img.Length0 && 0 <= x < img.Length1
      ensures img[y, x] != 1
      ensures g0[y][x] != 1 ==> img[y, x] == g0[y][x]
      ensures g0[y][x] == 1 ==> exists k :: 0 <= k < |log| && Point(x, y) in log[k].region
    {
      var p := Point(x, y);
      assert InGrid(g0, p) && Before(p, Point(0, img.Length0));
      if p in done {
        var k := UnionWitness(log, p);
        RegionIsForeground(g0, log[k].seed, p);
      }
    }
  }

  /** At the end of the scan every pixel of a flood's region holds the tag
      of that flood's record. */
  lemma FinalTags(img: array2<int>, g0: Grid, log: seq<FloodLog>, done: set<Point>,
                  minWidth: int, minHeight: int, minPixels: int)
    requires Rectangular(g0, img.Length0, img.Length1)
    requires Stamped(Snapshot(img), g0, log, done)
    requires EntriesOk(log, minWidth, minHeight, minPixels)
    ensures forall k, y, x :: 0 <= k < |log| && 0 <= y < img.Length0 && 0 <= x < img.Length1 && Point(x, y) in log[k].region ==>
              img[y, x] == log[k].comp.tag
  {
    forall k, y, x | 0 <= k < |log| && 0 <= y < img.Length0 && 0 <= x < img.Length1 && Point(x, y) in log[k].region
      ensures img[y, x] == log[k].comp.tag
    {
      assert InGrid(g0, Point(x, y));
    }
  }

  /** A pixel of the union lies in the region of some flood. */
  lemma {:induction false} UnionWitness(log: seq<FloodLog>, q: Point) returns (k: int)
    requires q in Union(log)
    ensures 0 <= k < |log| && q in log[k].region
  {
    var front := log[..|log| - 1];
    if q in log[|log| - 1].region {
      k := |log| - 1;
    } else {
      k := UnionWitness(front, q);
      assert log[k] == front[k];
    }
  }

  lemma {:induction false} UnionMembers(log: seq<FloodLog>)
    ensures forall q :: q in Union(log) <==> exists k :: 0 <= k < |log| && q in log[k].region
  {
    if log != [] {
      var front := log[..|log| - 1];
      UnionMembers(front);
      forall q | q in Union(log) ensures exists k :: 0 <= k < |log| && q in log[k].region {
        if q in Union(front) {
          var k :| 0 <= k < |front| && q in front[k].region;
          assert log[k] == front[k];
        }
      }
      forall q | (exists k :: 0 <= k < |log| && q in log[k].region) ensures q in Union(log) {
        var k :| 0 <= k < |log| && q in log[k].region;
        if k < |front| {
          assert front[k] == log[k];
        }
      }
    }
  }

  // ---------------------------------------------------------------------
  // How the counter hands out tags

  /** Each flood gets the tag of the flood before it, plus one exactly when
      that flood was kept: the tag of a rejected record is handed out again. */
  lemma {:induction false} TagHandedOn(log: seq<FloodLog>, next: int, k: int)
    requires Tags(log, next) && 0 <= k < |log| - 1
    ensures log[k + 1].tag == log[k].tag + (if log[k].kept then 1 else 0)
  {
    var front := log[..|log| - 1];
    if k + 1 < |log| - 1 {
      TagHandedOn(front, log[|log| - 1].tag, k);
      assert front[k] == log[k] && front[k + 1] == log[k + 1];
    } else {
      assert front[|front| - 1] == log[k];
    }
  }

  /** The k-th flood gets 2 plus the number of records kept before it. */
  lemma {:induction false} TagOfFlood(log: seq<FloodLog>, next: int, k: int)
    requires Tags(log, next) && 0 <= k < |log|
    ensures log[k].tag == |Kept(log[..k])| + 2
  {
    var front := log[..|log| - 1];
    if k < |log| - 1 {
      TagOfFlood(front, log[|log| - 1].tag, k);
      assert front[k] == log[k] && front[..k] == log[..k];
    } else {
      assert log[..k] == front;
      if front != [] {
        var prev := front[|front| - 1];
        assert Tags(front[..|front| - 1], prev.tag);
        TagOfFlood(front, log[k].tag, k - 1);
        assert front[..k - 1] + [prev] == front;
        KeptSnoc(front[..k - 1], prev);
      }
    }
  }
}

/** The labelling driver: scan the image row by row, flood every pixel still
    equal to 1 into a component, keep the components that pass the size
    filter, and count tags from 2 upwards, moving on to the next tag only
    when a component is kept. */
module Labelling {
  import opened Grid
  import opened Components
  import opened FloodFill
  import opened ScanLog

  /** Everything the scan knows about the log and the image g when it
      stands at pos. */
  ghost predicate ScanState(g: Grid, g0: Grid, log: seq<FloodLog>, done: set<Point>, pos: Point)
  {
    LogState(g0, log, done, pos) && GridState(g, g0, log, done, pos)
  }

  /** The records: every entry is right, the kept ones are the result,
      tagged 2, 3, ..., and tag is the next tag to hand out. */
  ghost predicate RecordState(log: seq<FloodLog>, comps: seq<Component>, tag: int,
                              minWidth: int, minHeight: int, minPixels: int)
    reads Records(log), comps
  {
    Tagged(log, comps, tag) && EntriesOk(log, minWidth, minHeight, minPixels)
  }

  // ---------------------------------------------------------------------
  // The scan

  /** Label the 4-connected components of the pixels equal to 1, in place.
      Returns the kept records in scan order; the ghost log lists every
      flood, kept or not. */
  method Label(img: array2<int>, minWidth: int, minHeight: int, minPixels: int)
    returns (comps: seq<Component>, ghost log: seq<FloodLog>)
    modifies img
    ensures forall y, x :: 0 <= y < img.Length0 && 0 <= x < img.Length1 ==> img[y, x] != 1
    ensures forall y, x :: 0 <= y < img.Length0 && 0 <= x < img.Length1 && old(img[y, x]) != 1 ==>
              img[y, x] == old(img[y, x])
    ensures forall y, x :: 0 <= y < img.Length0 && 0 <= x < img.Length1 && old(img[y, x]) == 1 ==>
              exists k :: 0 <= k < |log| && Point(x, y) in log[k].region
    ensures forall k, y, x :: 0 <= k < |log| && 0 <= y < img.Length0 && 0 <= x < img.Length1 && Point(x, y) in log[k].region ==>
              img[y, x] == log[k].comp.tag
    ensures ScanState(Snapshot(img), old(Snapshot(img)), log, Union(log), Point(0, img.Length0))
    ensures RecordState(log, comps, |comps| + 2, minWidth, minHeight, minPixels)
  {
    ghost var g0 := Snapshot(img);
    var tag;
    ghost var done;
    comps, tag, log, done := ScanRows(img, minWidth, minHeight, minPixels);
    ScanDone(img, g0, log, done, comps, tag, minWidth, minHeight, minPixels);
  }

  /** The scan proper, row by row from the top, starting with no records
      and tag 2. */
  method ScanRows(img: array2<int>, minWidth: int, minHeight: int, minPixels: int)
    returns (comps: seq<Component>, tag: int, ghost log: seq<FloodLog>, ghost done: set<Point>)
    modifies img
    ensures ScanState(Snapshot(img), old(Snapshot(img)), log, done, Point(0, img.Length0))
    ensures RecordState(log, comps, tag, minWidth, minHeight, minPixels)
  {
    ghost var g0 := Snapshot(img);
    comps, log := [], [];
    tag := 2;
    done := {};
    ScanStart(g0, minWidth, minHeight, minPixels);
    for y := 0 to img.Length0
      invariant ScanState(Snapshot(img), g0, log, done, Point(0, y))
      invariant RecordState(log, comps, tag, minWidth, minHeight, minPixels)
    {
      comps, tag, log, done := ScanRow(img, y, minWidth, minHeight, minPixels, comps, tag, g0, log, done);
    }
  }

  /** One row of the scan, left to right. */
  method ScanRow(img: array2<int>, y: int, minWidth: int, minHeight: int, minPixels: int,
                 comps: seq<Component>, tag: int, ghost g0: Grid, ghost log: seq<FloodLog>, ghost done: set<Point>)
    returns (comps': seq<Component>, tag': int, ghost log': seq<FloodLog>, ghost done': set<Point>)
    requires 0 <= y < img.Length0 && Rectangular(g0, img.Length0, img.Length1)
    requires ScanState(Snapshot(img), g0, log, done, Point(0, y))
    requires RecordState(log, comps, tag, minWidth, minHeight, minPixels)
    modifies img
    ensures ScanState(Snapshot(img), g0, log', done', Point(0, y + 1))
    ensures RecordState(log', comps', tag', minWidth, minHeight, minPixels)
  {
    comps', tag', log', done' := comps, tag, log, done;
    for x := 0 to img.Length1
      invariant ScanState(Snapshot(img), g0, log', done', Point(x, y))
      invariant RecordState(log', comps', tag', minWidth, minHeight, minPixels)
    {
      if img[y, x] == 1 {
        comps', tag', log', done' := ScanPixel(img, x, y, minWidth, minHeight, minPixels, comps', tag', g0, log', done');
      } else {
        NextPixel(Snapshot(img), g0, log', done', x, y);
      }
    }
    EndOfRow(Snapshot(img), g0, log', done', y, img.Length1);
  }

  /** The body of the scan at a pixel equal to 1: a fresh record, a flood,
      the filter, and the tag counter moved on only when the record is kept. */
  method ScanPixel(img: array2<int>, x: int, y: int, minWidth: int, minHeight: int, minPixels: int,
                   comps: seq<Component>, tag: int, ghost g0: Grid, ghost log: seq<FloodLog>, ghost done: set<Point>)
    returns (comps': seq<Component>, tag': int, ghost log': seq<FloodLog>, ghost done': set<Point>)
    requires 0 <= y < img.Length0 && 0 <= x < img.Length1 && img[y, x] == 1
    requires ScanState(Snapshot(img), g0, log, done, Point(x, y))
    requires RecordState(log, comps, tag, minWidth, minHeight, minPixels)
    modifies img
    ensures ScanState(Snapshot(img), g0, log', done', Point(x + 1, y))
    ensures RecordState(log', comps', tag', minWidth, minHeight, minPixels)
  {
    ghost var g := Snapshot(img);
    ghost var s := Point(x, y);
    ghost var region := Region(g0, s);
    SeedRegion(g, g0, log, done, s);
    var c, kept;
    c, kept, comps', tag' := FloodRecord(img, x, y, minWidth, minHeight, minPixels, comps, tag, log, region);
    ghost var entry := FloodLog(s, region, c, tag, kept);
    log' := log + [entry];
    done' := done + entry.region;
    ScanAfterFlood(g, Snapshot(img), g0, log, done, x, y, entry);
  }

  /** Flood the component of (x, y) into a fresh record with the current
      tag, then keep the record and move the tag on only if the filter
      accepts it. */
  method FloodRecord(img: array2<int>, x: int, y: int, minWidth: int, minHeight: int, minPixels: int,
                     comps: seq<Component>, tag: int, ghost log: seq<FloodLog>, ghost region: set<Point>)
    returns (c: Component, kept: bool, comps': seq<Component>, tag': int)
    requires 0 <= y < img.Length0 && 0 <= x < img.Length1 && img[y, x] == 1
    requires region == Region(Snapshot(img), Point(x, y))
    requires RecordState(log, comps, tag, minWidth, minHeight, minPixels)
    modifies img
    ensures Restamped(Snapshot(img), old(Snapshot(img)), region, tag)
    ensures tag != 1 && fresh(c) && comps' == (if kept then comps + [c] else comps)
    ensures RecordState(log + [FloodLog(Point(x, y), region, c, tag, kept)], comps', tag', minWidth, minHeight, minPixels)
  {
    c := FloodComponent(img, x, y, tag, region);
    kept, comps', tag' := KeepIfAccepted(c, Point(x, y), region, minWidth, minHeight, minPixels, comps, tag, log);
  }

  /** The filter step of the scan: a record that passes the filter joins the
      result and moves the tag on; a rejected one leaves both as they were,
      so its tag is handed out again. */
  method KeepIfAccepted(c: Component, ghost seed: Point, ghost region: set<Point>,
                        minWidth: int, minHeight: int, minPixels: int,
                        comps: seq<Component>, tag: int, ghost log: seq<FloodLog>)
    returns (kept: bool, comps': seq<Component>, tag': int)
    requires c.tag == tag && c.nPixels == |region| && Tight(c, region)
    requires RecordState(log, comps, tag, minWidth, minHeight, minPixels)
    ensures kept == Accepts(c, minWidth, minHeight, minPixels)
    ensures comps' == (if kept then comps + [c] else comps) && tag' == (if kept then tag + 1 else tag)
    ensures RecordState(log + [FloodLog(seed, region, c, tag, kept)], comps', tag', minWidth, minHeight, minPixels)
  {
    kept := Accepts(c, minWidth, minHeight, minPixels);
    RecordsAfterFlood(log, comps, tag, FloodLog(seed, region, c, tag, kept), minWidth, minHeight, minPixels);
    comps', tag' := comps, tag;
    if kept {
      comps' := comps + [c];
      tag' := tag + 1;
    }
  }

  /** A fresh record for the component of the pixel (x, y), flooded with
      tag: the component is stamped, and the record counts its pixels and
      has its box tight around it. */
  method FloodComponent(img: array2<int>, x: int, y: int, tag: int, ghost region: set<Point>) returns (c: Component)
    requires 0 <= y < img.Length0 && 0 <= x < img.Length1 && img[y, x] == 1 && tag != 1
    requires region == Region(Snapshot(img), Point(x, y))
    modifies img
    ensures fresh(c)
    ensures Restamped(Snapshot(img), old(Snapshot(img)), region, tag)
    ensures c.tag == tag && c.nPixels == |region| && Tight(c, region)
  {
    c := new Component(tag, img.Length0, img.Length1, y, x);
    ghost var g := Snapshot(img);
    SeedInRegion(g, Point(x, y));
    Flood(img, x, y, tag, c);
    StampedSnapshot(img, g, region, tag);
    SeedBox(c, region, Point(x, y), img.Length0, img.Length1);
  }

  // ---------------------------------------------------------------------
  // Moving the scan on by one pixel

  /** Before the scan: no floods, no records, tag 2. */
  lemma ScanStart(g0: Grid, minWidth: int, minHeight: int, minPixels: int)
    ensures ScanState(g0, g0, [], {}, Point(0, 0))
    ensures RecordState([], [], 2, minWidth, minHeight, minPixels)
  {
  }

  /** The region of a pixel the scan finds still equal to 1 is the same in
      the current image as in the original one. */
  lemma SeedRegion(g: Grid, g0: Grid, log: seq<FloodLog>, done: set<Point>, s: Point)
    requires InGrid(g0, s) && InGrid(g, s) && At(g, s) == 1
    requires ScanState(g, g0, log, done, s)
    ensures Region(g, s) == Region(g0, s)
  {
    RegionPreserved(g0, g, done, s);
  }

  /** One flood of the scan, from the pixel (x, y) still equal to 1 in the
      image g, turning g into g' and adding entry to the log, keeps the log
      and the image consistent one pixel further on. */
  lemma ScanAfterFlood(g: Grid, g': Grid, g0: Grid, log: seq<FloodLog>, done: set<Point>, x: int, y: int, entry: FloodLog)
    requires InGrid(g0, Point(x, y)) && InGrid(g, Point(x, y)) && At(g, Point(x, y)) == 1
    requires ScanState(g, g0, log, done, Point(x, y))
    requires entry.seed == Point(x, y) && entry.region == Region(g0, entry.seed) && entry.tag != 1
    requires Restamped(g', g, entry.region, entry.tag)
    ensures ScanState(g', g0, log + [entry], done + entry.region, Point(x + 1, y))
  {
    FreshRegion(g, g0, log, done, entry.seed);
    LogAfterFlood(g0, log, done, x, y, entry);
    GridAfterFlood(g, g', g0, log, done, x, y, entry);
  }

  /** The records after one more flood: the new record joins the result when
      the filter accepts it, and the tag moves on exactly then. */
  lemma RecordsAfterFlood(log: seq<FloodLog>, comps: seq<Component>, tag: int, entry: FloodLog,
                          minWidth: int, minHeight: int, minPixels: int)
    requires RecordState(log, comps, tag, minWidth, minHeight, minPixels)
    requires EntryOk(entry, minWidth, minHeight, minPixels) && entry.tag == tag
    ensures RecordState(log + [entry], comps + (if entry.kept then [entry.comp] else []),
                        if entry.kept then tag + 1 else tag, minWidth, minHeight, minPixels)
  {
    var log' := log + [entry];
    KeptSnoc(log, entry);
    TagsSnoc(log, tag, entry);
    forall k | 0 <= k < |log'| ensures EntryOk(log'[k], minWidth, minHeight, minPixels) {
      if k < |log| {
        assert log'[k] == log[k];
      }
    }
  }

  /** At the end of the scan no pixel is 1, the pixels that were not 1 are
      as they were, every pixel that was 1 lies in the region of some flood,
      and holds the tag of that flood's record. */
  lemma ScanDone(img: array2<int>, g0: Grid, log: seq<FloodLog>, done: set<Point>,
                 comps: seq<Component>, tag: int, minWidth: int, minHeight: int, minPixels: int)
    requires Rectangular(g0, img.Length0, img.Length1)
    requires ScanState(Snapshot(img), g0, log, done, Point(0, img.Length0))
    requires RecordState(log, comps, tag, minWidth, minHeight, minPixels)
    ensures done == Union(log) && tag == |comps| + 2
    ensures forall y, x :: 0 <= y < img.Length0 && 0 <= x < img.Length1 ==> img[y, x] != 1
    ensures forall y, x :: 0 <= y < img.Length0 && 0 <= x < img.Length1 && g0[y][x] != 1 ==>
              img[y, x] == g0[y][x]
    ensures forall y, x :: 0 <= y < img.Length0 && 0 <= x < img.Length1 && g0[y][x] == 1 ==>
              exists k :: 0 <= k < |log| && Point(x, y) in log[k].region
    ensures forall k, y, x :: 0 <= k < |log| && 0 <= y < img.Length0 && 0 <= x < img.Length1 && Point(x, y) in log[k].region ==>
              img[y, x] == log[k].comp.tag
  {
    FinalImage(img, g0, log, done);
    FinalTags(img, g0, log, done, minWidth, minHeight, minPixels);
  }

  /** Moving past a pixel that is not 1. */
  lemma NextPixel(g: Grid, g0: Grid, log: seq<FloodLog>, done: set<Point>, x: int, y: int)
    requires InGrid(g0, Point(x, y)) && InGrid(g, Point(x, y)) && At(g, Point(x, y)) != 1
    requires ScanState(g, g0, log, done, Point(x, y))
    ensures ScanState(g, g0, log, done, Point(x + 1, y))
  {
  }

  /** Moving from the end of row y, w pixels wide, to the start of row y + 1. */
  lemma EndOfRow(g: Grid, g0: Grid, log: seq<FloodLog>, done: set<Point>, y: int, w: int)
    requires 0 <= y < |g0| && Rectangular(g0, |g0|, w)
    requires ScanState(g, g0, log, done, Point(w, y))
    ensures ScanState(g, g0, log, done, Point(0, y + 1))
  {
  }
}

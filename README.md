# Connected-component labelling by flood fill

A model of the segmentation engine of `main.py`. The engine does three things:

- It thresholds a grey-level image into background and foreground (`binariza`).
- It scans the image in row-major order. Every pixel still equal to 1 seeds a flood
  that stamps the 4-connected component of that pixel with the current label and fills
  a record for it (`rotula`, `inicializa_componente`, `inunda`,
  `atribui_valores_componente`, `esta_dentro_da_imagem`).
- It keeps a record only when a size filter accepts it (`validar_componente`). The label
  counter moves on only for a kept record.

The model has six modules:

- `Grid` (`grid.dfy`): points, grids as sequences of rows, 4-adjacency, paths, and the
  connected region of a seed. The region is defined as the set of cells reachable
  through foreground cells.
- `Binarize` (`binarize.dfy`): thresholding on a grid of reals.
- `Components` (`components.dfy`): the component record. It is a class with the fields
  `tag`, `nPixels`, `top`, `left`, `bottom` and `right`, which the flood updates in
  place. The module also holds the size filter and what a tight bounding box is.
- `FloodFill` (`flood.dfy`): the flood on an `array2<int>`, with the bounds test and
  the neighbour test. It also has the neighbour test exactly as the source writes it;
  see Findings.
- `ScanLog` (`scanlog.dfy`): a ghost log with one entry per flood (seed, region,
  record, tag, kept). It also holds the facts the scan keeps about the log, the image
  and the records.
- `Labelling` (`labelling.dfy`): the scan itself, as nested loops over rows and
  columns. Each step of the scan is a method proved against the facts in `ScanLog`.

Pixels hold integers: 0 is background, 1 is unlabelled foreground, and tags start at 2.

Labels of rejected components are reused. In `rotula`, `label += 1` runs only inside the
`validar_componente` branch (`main.py:99-101`). So when a component is rejected, the
next flood gets the same label, and the rejected component's pixels keep it as well.

- `ScanLog.Tags` states this behaviour.
- `ScanLog.TagHandedOn` proves it.
- The kept records carry consecutive tags 2, 3, ….

## Model

| member | source | states |
|---|---|---|
| Binarize.BinarizeRow | main.py:41 | a row keeps its length; each sample becomes 1.0 exactly when it is strictly above the threshold, else 0.0 |
| Binarize.Binarize | main.py:28-41 | the image keeps its shape (rows and row lengths); each sample becomes 1.0 exactly when strictly above the threshold, else 0.0 |
| Binarize.BinarizeIsBinary | main.py:41 | every sample of a binarised image is 0.0 or 1.0 |
| Binarize.BinarizeIdempotent | main.py:41 | for a threshold in [0, 1), binarising a binarised image returns it unchanged |
| Binarize.BinarizeAntitone | main.py:41 | raising the threshold never turns a 0.0 sample into 1.0 |
| Grid.Neighbours | main.py:128 | there are four candidates, and they are exactly the points 4-adjacent to the pixel |
| Grid.Region | main.py:122-130 | a point is in the region of s exactly when a path of foreground cells leads from s to it |
| Grid.SeedInRegion | main.py:124 | a foreground seed belongs to its own region |
| Grid.RegionIsForeground | main.py:129 | every cell of a region, and its seed, is a foreground cell |
| Grid.ConnectedStep | main.py:128-130 | a step from a reachable cell to an adjacent foreground cell reaches that cell too |
| Grid.RegionClosed | main.py:128-130 | no cell of a region has an adjacent foreground cell outside it |
| Grid.ClosedHoldsRegion | main.py:128-130 | a closed set holding the seed holds the whole region, so a flood that leaves no unstamped foreground neighbour has stamped all of it |
| Grid.ConnectedSymmetric | main.py:128 | 4-connectivity is symmetric |
| Grid.RegionsEqualOrDisjoint | main.py:91-97 | two regions are identical or disjoint |
| Grid.RegionOfMember | main.py:91-97 | any member of a region has that same region |
| Grid.RegionPreserved | main.py:91-97 | relabelling a closed set of cells does not change the region of a foreground cell outside it, so a seed the scan meets still has its whole component at 1 |
| Components.Component.constructor | main.py:47-55 | a fresh record has the given label, 0 pixels, top and left one past the last row and column, bottom and right at the seed |
| Components.Component.Include | main.py:105-115 | the count goes up by one, the box becomes the least box covering the old box and (x, y), and the label is unchanged |
| Components.Accepts | main.py:58-63 | true exactly when the record has at least the minimum pixels and the box's inclusive row and column counts strictly exceed the minimum height and width. The code compares coordinate differences, so a box spanning h rows has height h - 1 |
| Components.AcceptsMonotone | main.py:58-63 | a record the filter keeps is also kept under any lower minimum width, height and pixel count |
| Components.FlatComponentRejected | main.py:58-63 | because height and width are coordinate differences, a component within one row or one column is rejected by any positive minimum height and width |
| FloodFill.InsideImage | main.py:118-119 | true exactly when (x, y) is a pixel of the image |
| FloodFill.Unlabelled | main.py:129 | the neighbour test with the bounds checked first: true exactly when (x, y) is inside the image and still 1 |
| FloodFill.ProbeAsWritten | main.py:129 | the neighbour test as written, reading before checking bounds: it agrees with the intended test whenever it reads a value, and reads every pixel inside the image |
| FloodFill.RightEdgeRaises | main.py:128-129 | for any pixel in the last column, reading its right neighbour raises an index error |
| FloodFill.BottomEdgeRaises | main.py:128-129 | for any pixel in the last row, reading the neighbour below raises an index error |
| FloodFill.OnePixelRaises | main.py:128-129 | a 1-by-1 image whose pixel is 1 makes the as-written test raise on the first flood |
| FloodFill.Flood | main.py:122-130 | the flood from a seed equal to 1 stamps exactly the seed's region with the label and leaves every other pixel unchanged. The record's count grows by the region's size, its label is kept, and its box widens to cover the region, each edge either where it was or touched by the region |
| FloodFill.Drain | main.py:128-130 | taking pixels off the pending stack until it is empty stamps only pixels of the region and leaves the stamped set closed. The image and the record agree with the stamped set throughout |
| FloodFill.VisitNeighbours | main.py:128-130 | trying the four neighbours of a pixel adds exactly its foreground neighbours to the stamped set, and pushes exactly those of them that were not stamped before. The stamped set stays within the region, and afterwards the pixel has no unstamped foreground neighbour |
| FloodFill.VisitNeighbour | main.py:129-130 | a neighbour inside the image and still 1 is stamped, counted and pushed; any other neighbour changes nothing |
| FloodFill.StampPixel | main.py:124-126 | stamping one pixel sets it to the label and counts it in the record, extending the image and record facts by that pixel |
| ScanLog.FreshRegion | main.py:93-97 | a pixel the scan finds still 1 seeds a region disjoint from all earlier floods that lies after the seed in scan order |
| ScanLog.StampedSnapshot | main.py:124 | the flood's effect on the array, read as a grid: the region holds the label, the rest is unchanged |
| ScanLog.SeedBox | main.py:47-55 | a fresh record flooded from its seed counts exactly its region and has a tight box |
| ScanLog.KeptSnoc | main.py:99-100 | one more flood appends its record to the kept records exactly when it is kept |
| ScanLog.TagsSnoc | main.py:99-101 | one more flood carrying the current label moves the counter on by one exactly when it is kept |
| ScanLog.CoversSnoc | main.py:93-97 | the visited set stays the union of the flooded regions |
| ScanLog.DisjointSnoc | main.py:93-97 | a new region disjoint from the visited set keeps all regions pairwise disjoint |
| ScanLog.OrderSnoc | main.py:91-93 | seeds stay in row-major order, each seed first in its region |
| ScanLog.ClosedUnion | main.py:128-130 | the union of two closed sets is closed |
| ScanLog.LogAfterFlood | main.py:91-97 | logging one more flood keeps the log facts (regions, union, disjointness, order, closure) one pixel further on |
| ScanLog.GridAfterFlood | main.py:91-97 | stamping the new region keeps the image facts one pixel further on: visited pixels hold their flood's label, the others are as they were, none before the scan position is 1 |
| ScanLog.FinalImage | main.py:91-102 | after the full scan no pixel is 1, pixels that were not 1 are unchanged, and every pixel that was 1 lies in some flood's region |
| ScanLog.FinalTags | main.py:91-102 | after the full scan every pixel of a flood's region holds that flood's record's label |
| ScanLog.UnionWitness | main.py:91-97 | a visited pixel lies in the region of some flood |
| ScanLog.UnionMembers | main.py:91-97 | a pixel is visited exactly when it lies in some flood's region |
| ScanLog.TagHandedOn | main.py:99-101 | each flood gets the label of the flood before it, plus one exactly when that one was kept, so a rejected component's label is used again |
| ScanLog.TagOfFlood | main.py:87-101 | the k-th flood's label is 2 plus the number of records kept before it |
| Labelling.Label | main.py:66-102 | no pixel is left at 1, and pixels that were not 1 are unchanged. Every pixel that was 1 lies in the region of a flood and holds that flood's record's label. Floods are disjoint regions seeded in row-major order. The result is the kept records in seed order, tagged 2, 3, …. Each record counts its region, has a tight box and was kept exactly when the filter accepts it |
| Labelling.ScanRows | main.py:86-101 | the row loop: starting with no records and label 2, it leaves the scan facts at the end of the image and the record facts with the final counter |
| Labelling.ScanRow | main.py:92-101 | one row, left to right, keeps the scan facts and the record facts, and moves the scan position to the start of the next row |
| Labelling.ScanPixel | main.py:93-101 | one pixel still at 1: create, flood and filter a record, log the flood, and move the scan position one pixel on with all facts kept |
| Labelling.FloodRecord | main.py:95-101 | the region is stamped with the current label and nothing else changes. The record is newly created, and it is appended to the result exactly when the filter keeps it. The records are updated as the filter decides |
| Labelling.KeepIfAccepted | main.py:99-101 | kept is the filter's verdict. The record is appended and the label incremented exactly when kept, otherwise both are unchanged |
| Labelling.FloodComponent | main.py:95-97 | a fresh record with the current label. Its region is stamped and nothing else changes. It counts exactly the region's pixels and its box is tight around the region |
| Labelling.ScanStart | main.py:86-89 | before the scan: empty log, no records, label 2, all facts hold |
| Labelling.SeedRegion | main.py:93 | a pixel the scan finds still 1 has the same region in the current image as in the original one |
| Labelling.ScanAfterFlood | main.py:93-97 | flooding the region of the current pixel and logging it keeps the scan facts, one pixel further on |
| Labelling.RecordsAfterFlood | main.py:97-101 | a correct record with the current label keeps the record facts, joining the result and moving the label on exactly when kept |
| Labelling.ScanDone | main.py:102 | at the end of the scan the visited set is the union of the regions and the counter is 2 plus the number of kept records. No pixel is 1, non-1 pixels are unchanged, and every pixel that was 1 is in a region and holds its label |
| Labelling.NextPixel | main.py:93 | passing a pixel that is not 1 keeps the scan facts, one pixel further on |
| Labelling.EndOfRow | main.py:91-92 | the end of a row is the start of the next one for the scan facts |

## Left out

- `main` is not part of this model. That covers image reading and writing, display,
  timing, the `NEGATIVO` inversion, the reshaping to one channel and the division by
  255. The model works on a 2-D image without a channel axis.
- `sys.setrecursionlimit` and the recursion of `inunda` are not modelled as such. The
  flood uses an explicit stack and stamps a pixel when it is pushed.
  - Pixels are therefore stamped in a different order from the recursive depth-first
    visit.
  - The stamped set, the pixel count and the bounding box do not depend on the order,
    and these are what the contracts state.
  - A stack overflow on a large component is not modelled.
- Labels are the floating-point values 1.1, 2.1, 3.1, … in the source. The model uses
  the integers 2, 3, 4, …, so the k-th label is k + 0.1 in the source and k + 1 here.
  - Both sequences are injective and distinct from 0 and 1, which is all the scan
    relies on.
  - Floating-point comparisons are not modelled.
- Binarize.Binarize works on real numbers, not float32 samples. It covers one channel
  only; the source binarises each channel independently.
- The grid is not required to be binary on entry. Cells other than 1 are left
  untouched, as the code leaves them.
- The component dictionary of the source (`label`, `n_pixels`, `T`, `L`, `B`, `R`) is
  the class `Components.Component` (`tag`, `nPixels`, `top`, `left`, `bottom`, `right`).
- The flood and the scan use the corrected neighbour test `FloodFill.Unlabelled`, not
  the one as written, which reads before it checks the bounds; see Findings. Negative
  indices, which Python wraps around, are modelled only in `FloodFill.ProbeAsWritten`.
- Labelling.Label: does not state that the returned records are newly allocated. Each
  record is fresh when Labelling.FloodRecord creates it, but carrying that fact through
  the scan loops is not part of this model.

## Findings

| source | as written | input that shows it | evidently intended | confidence | as-written member | corrected member |
|---|---|---|---|---|---|---|
| main.py:129 | `img[y][x] == 1 and esta_dentro_da_imagem(img, x, y)` reads the neighbour before checking that it is inside the image | a 1-by-1 image `[[1.0]]`: the flood from (0, 0) reads `img[0][1]` and raises `IndexError`. Any component touching the last column or the last row does the same | check the bounds first: `esta_dentro_da_imagem(img, x, y) and img[y][x] == 1` | high, not executed | FloodFill.ProbeAsWritten, FloodFill.RightEdgeRaises, FloodFill.BottomEdgeRaises, FloodFill.OnePixelRaises | FloodFill.Unlabelled, FloodFill.VisitNeighbour |

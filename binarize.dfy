/** Thresholding of a grey-level image into background (0.0) and
    foreground (1.0). */
module Binarize {

  /** One row: a sample strictly above the threshold becomes 1.0, any other 0.0. */
  function BinarizeRow(row: seq<real>, threshold: real): (r: seq<real>)
    ensures |r| == |row|
    ensures forall x :: 0 <= x < |row| ==> r[x] == if row[x] > threshold then 1.0 else 0.0
  {
    if row == [] then []
    else [if row[0] > threshold then 1.0 else 0.0] + BinarizeRow(row[1..], threshold)
  }

  /** The whole image, row by row: same shape, each sample thresholded alone. */
  function Binarize(img: seq<seq<real>>, threshold: real): (r: seq<seq<real>>)
    ensures |r| == |img|
    ensures forall y :: 0 <= y < |img| ==> |r[y]| == |img[y]|
    ensures forall y, x :: 0 <= y < |img| && 0 <= x < |img[y]| ==>
              r[y][x] == if img[y][x] > threshold then 1.0 else 0.0
  {
    if img == [] then []
    else [BinarizeRow(img[0], threshold)] + Binarize(img[1..], threshold)
  }

  /** Every sample of a binarised image is 0.0 or 1.0. */
  lemma BinarizeIsBinary(img: seq<seq<real>>, threshold: real, y: int, x: int)
    requires 0 <= y < |img| && 0 <= x < |img[y]|
    ensures Binarize(img, threshold)[y][x] in {0.0, 1.0}
  {
  }

  /** With a threshold in [0, 1), binarising a binary image changes nothing,
      so binarising twice is binarising once. */
  lemma BinarizeIdempotent(img: seq<seq<real>>, threshold: real)
    requires 0.0 <= threshold < 1.0
    ensures Binarize(Binarize(img, threshold), threshold) == Binarize(img, threshold)
  {
    var b := Binarize(img, threshold);
    var bb := Binarize(b, threshold);
    assert |bb| == |b|;
    forall y | 0 <= y < |b| ensures bb[y] == b[y] {
      assert |bb[y]| == |b[y]|;
      forall x | 0 <= x < |b[y]| ensures bb[y][x] == b[y][x] {
        assert b[y][x] == 0.0 || b[y][x] == 1.0;
      }
    }
  }

  /** Raising the threshold never turns a background sample into foreground. */
  lemma BinarizeAntitone(img: seq<seq<real>>, low: real, high: real, y: int, x: int)
    requires low <= high && 0 <= y < |img| && 0 <= x < |img[y]|
    ensures Binarize(img, high)[y][x] <= Binarize(img, low)[y][x]
  {
  }
}

/**
 * The smart-crop rectangle of the /cover/:id handler: a window of ratio 2:3
 * centred in the decoded image, keeping the full height of an image wider
 * than 2:3 and the full width of any other.
 *
 * The source compares float64(width)/float64(height) with 2.0/3.0 and
 * truncates float64 products; this model uses the exact integer forms
 * 3*width > 2*height, (2*height)/3 and (3*width)/2 instead.
 */
module SmartCrop {

  /** image.Rect(x0, y0, x1, y1): the pixels x0 <= x < x1, y0 <= y < y1. */
  datatype Rect = Rect(x0: int, y0: int, x1: int, y1: int)

  /** Go's integer division, which truncates toward zero. */
  function GoDiv(a: int, b: int): (q: int)
    requires b > 0
    ensures a >= 0 ==> q == a / b
  {
    if a >= 0 then a / b else -((-a) / b)
  }

  /** currentRatio > targetRatio: the image is wider than 2:3. */
  predicate IsWide(width: nat, height: nat) {
    3 * width > 2 * height
  }

  /** For a positive height, the integer test is the ratio test width / height > 2/3 on exact reals. */
  lemma IsWideIsRatioTest(width: nat, height: nat)
    requires height > 0
    ensures IsWide(width, height) <==> (width as real) / (height as real) > 2.0 / 3.0
  {
    var w, h := width as real, height as real;
    var ratio := w / h;
    ScaleStrict(ratio, 2.0 / 3.0, 3.0 * h);
    assert ratio * (3.0 * h) == 3.0 * w;
    assert (2.0 / 3.0) * (3.0 * h) == 2.0 * h;
  }

  /** Multiplying by a positive real keeps a strict order, both ways. */
  lemma ScaleStrict(a: real, b: real, c: real)
    requires c > 0.0
    ensures a > b <==> a * c > b * c
  {
    assert a * c - b * c == (a - b) * c;
  }

  /** The rectangle lies inside the image bounds [0, width] x [0, height]. */
  predicate Inside(r: Rect, width: nat, height: nat) {
    0 <= r.x0 <= r.x1 <= width && 0 <= r.y0 <= r.y1 <= height
  }

  /** The crop window of a width x height image. */
  function CropRect(width: nat, height: nat): (r: Rect)
    ensures Inside(r, width, height)
    // Wide: full height, width trunc(height*2/3), centred left to right.
    ensures IsWide(width, height) ==>
      r.y0 == 0 && r.y1 == height && r.x1 - r.x0 == (2 * height) / 3 &&
      0 <= (width - r.x1) - r.x0 <= 1
    // Tall or on-ratio: full width, height trunc(width*3/2), centred top to bottom.
    ensures !IsWide(width, height) ==>
      r.x0 == 0 && r.x1 == width && r.y1 - r.y0 == (3 * width) / 2 &&
      0 <= (height - r.y1) - r.y0 <= 1
    // The window is 2:3 up to the truncation of one pixel.
    ensures IsWide(width, height) ==> 3 * (r.x1 - r.x0) <= 2 * (r.y1 - r.y0) < 3 * (r.x1 - r.x0) + 3
    ensures !IsWide(width, height) ==> 2 * (r.y1 - r.y0) <= 3 * (r.x1 - r.x0) < 2 * (r.y1 - r.y0) + 2
  {
    if IsWide(width, height) then
      var newWidth := (2 * height) / 3;
      var startX := GoDiv(width - newWidth, 2);
      Rect(startX, 0, startX + newWidth, height)
    else
      var newHeight := (3 * width) / 2;
      var startY := GoDiv(height - newHeight, 2);
      Rect(0, startY, width, startY + newHeight)
  }

  /** An image that is already 2:3 is kept whole. */
  lemma OnRatioKeepsWholeImage(width: nat, height: nat)
    requires 3 * width == 2 * height
    ensures CropRect(width, height) == Rect(0, 0, width, height)
  {
  }

  /** An image at least one pixel wide and two pixels high gives a non-empty window. */
  lemma CropNonEmpty(width: nat, height: nat)
    requires width >= 1 && height >= 2
    ensures var r := CropRect(width, height); r.x0 < r.x1 && r.y0 < r.y1
  {
  }

  /** An image one pixel high is wide, and trunc(2/3) = 0 leaves a window with no column. */
  lemma SingleRowGivesEmptyWindow(width: nat)
    requires width >= 1
    ensures var r := CropRect(width, 1); r.x0 == r.x1
  {
  }
}

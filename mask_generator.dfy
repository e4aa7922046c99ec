/**
 * `generate_mask`: a height-by-width mask of one byte per pixel, 255 inside
 * the object's box (x, y, w, h) clipped to the image and 0 elsewhere.
 * The image size is a parameter; reading the image and saving the mask are
 * not modelled.
 */
module MaskGenerator {
  import opened Pixels

  /** Value written inside the box. */
  const Inside: uint8 := 255

  function Max(a: int, b: int): int { if a < b then b else a }
  function Min(a: int, b: int): int { if a < b then a else b }

  /** The clipped bounds [x1, x2) x [y1, y2), before Python's slicing reads them. */
  datatype Clip = Clip(x1: int, y1: int, x2: int, y2: int)

  function ClipBox(x: int, y: int, w: int, h: int, width: nat, height: nat): Clip
  {
    Clip(Max(0, x), Max(0, y), Min(x + w, width), Min(y + h, height))
  }

  /**
   * How Python turns a slice bound i into a position of a dimension of
   * length n: a negative bound counts from the end, and the result is
   * clamped to [0, n].
   */
  function SliceIndex(i: int, n: nat): (k: nat)
    ensures k <= n
    ensures 0 <= i <= n ==> k == i
    ensures -(n as int) <= i < 0 ==> k == n + i
    ensures n < i ==> k == n
    ensures i < -(n as int) ==> k == 0
  {
    if i < 0 then (if i + n < 0 then 0 else i + n)
    else if i < n then i
    else n
  }

  /** Cell (r, c) is covered by `mask[y1:y2, x1:x2] = 255`. */
  predicate Filled(x: int, y: int, w: int, h: int, width: nat, height: nat, r: int, c: int)
  {
    var cl := ClipBox(x, y, w, h, width, height);
    SliceIndex(cl.y1, height) <= r < SliceIndex(cl.y2, height) &&
    SliceIndex(cl.x1, width) <= c < SliceIndex(cl.x2, width)
  }

  /** The slice assignment `mask[r0:r1, c0:c1] = v`, done cell by cell. */
  method FillRect(mask: array2<uint8>, r0: nat, r1: nat, c0: nat, c1: nat, v: uint8)
    requires r1 <= mask.Length0 && c1 <= mask.Length1
    modifies mask
    ensures forall r, c :: 0 <= r < mask.Length0 && 0 <= c < mask.Length1 ==>
      mask[r, c] == if r0 <= r < r1 && c0 <= c < c1 then v else old(mask[r, c])
  {
    var r := r0;
    while r < r1
      invariant r0 <= r && (r <= r1 || r == r0)
      invariant forall i, j :: 0 <= i < mask.Length0 && 0 <= j < mask.Length1 ==>
        mask[i, j] == if r0 <= i < r && c0 <= j < c1 then v else old(mask[i, j])
    {
      var c := c0;
      while c < c1
        invariant r0 <= r < r1 && c0 <= c && (c <= c1 || c == c0)
        invariant forall i, j :: 0 <= i < mask.Length0 && 0 <= j < mask.Length1 ==>
          mask[i, j] == if (r0 <= i < r && c0 <= j < c1) || (i == r && c0 <= j < c) then v else old(mask[i, j])
      {
        mask[r, c] := v;
        c := c + 1;
      }
      r := r + 1;
    }
  }

  /** `generate_mask` for an image of the given size and the box (x, y, w, h). */
  method GenerateMask(width: nat, height: nat, x: int, y: int, w: int, h: int) returns (mask: array2<uint8>)
    ensures fresh(mask)
    ensures mask.Length0 == height && mask.Length1 == width
    ensures forall r, c :: 0 <= r < height && 0 <= c < width ==>
      mask[r, c] == if Filled(x, y, w, h, width, height, r, c) then Inside else 0
    ensures forall r, c :: 0 <= r < height && 0 <= c < width ==> mask[r, c] == 0 || mask[r, c] == 255
  {
    mask := new uint8[height, width]((_, _) => 0);
    var cl := ClipBox(x, y, w, h, width, height);
    FillRect(mask, SliceIndex(cl.y1, height), SliceIndex(cl.y2, height),
             SliceIndex(cl.x1, width), SliceIndex(cl.x2, width), Inside);
  }

  /** With non-negative stops, a cell is filled exactly when it lies in the
      clipped box max(0,y) <= r < min(y+h, height), max(0,x) <= c < min(x+w, width). */
  lemma FilledWithinClippedBox(x: int, y: int, w: int, h: int, width: nat, height: nat, r: int, c: int)
    requires x + w >= 0 && y + h >= 0
    requires 0 <= r < height && 0 <= c < width
    ensures Filled(x, y, w, h, width, height, r, c) <==>
      Max(0, y) <= r < Min(y + h, height) && Max(0, x) <= c < Min(x + w, width)
  {
  }

  /** A clipped box that is empty leaves the whole mask at 0. */
  lemma EmptyClipLeavesBlank(x: int, y: int, w: int, h: int, width: nat, height: nat, r: int, c: int)
    requires x + w >= 0 && y + h >= 0
    requires Min(x + w, width) <= Max(0, x) || Min(y + h, height) <= Max(0, y)
    ensures !Filled(x, y, w, h, width, height, r, c)
  {
  }

  /** In general, a negative column stop x + w in [-width, 0) moves the end of
      the filled columns to width + x + w, counted from the right edge. */
  lemma NegativeColumnStop(x: int, y: int, w: int, h: int, width: nat, height: nat, r: int, c: int)
    requires 0 <= x && -(width as int) <= x + w < 0
    requires 0 <= c < width
    ensures Filled(x, y, w, h, width, height, r, c) <==>
      SliceIndex(Max(0, y), height) <= r < SliceIndex(Min(y + h, height), height) && x <= c < width + x + w
  {
  }

  /** A negative stop counts from the end of the row: the box at (0, 0) with
      width -3 in a 10 by 10 image fills columns 0 to 6. */
  lemma NegativeStopCountsFromEnd()
    ensures Filled(0, 0, -3, 4, 10, 10, 0, 0) && Filled(0, 0, -3, 4, 10, 10, 3, 6)
    ensures !Filled(0, 0, -3, 4, 10, 10, 0, 7)
  {
  }
}

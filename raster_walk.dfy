/** The raster walk that copies a flat pixel vector into an `RgbImage` before it is
    encoded as PNG (`save_png` and `save_png2` of the common crate, the backend's u16
    `save_png` and `save_png_rational` all share it): two counters x and y follow the
    pixels, x wrapping to 0 and y advancing whenever x reaches the width. */
module RasterWalk {
  import opened Wrappers
  import opened Colors
  import opened Canvas

  /** `ImageBuffer::new(width, height)`: a width * height image of black pixels, indexed
      [x, y]. */
  method NewImage(width: nat, height: nat) returns (image: array2<Color>)
    ensures fresh(image) && image.Length0 == width && image.Length1 == height
    ensures forall i, j :: 0 <= i < width && 0 <= j < height ==> image[i, j] == Black
  {
    image := new Color[width, height]((i, j) => Black);
  }

  /** The image holds the pixels `done` in raster order and black in every other cell. */
  ghost predicate Holds(image: array2<Color>, done: seq<Color>)
    reads image
  {
    forall i, j :: 0 <= i < image.Length0 && 0 <= j < image.Length1 ==>
      image[i, j] == if j * image.Length0 + i < |done| then done[j * image.Length0 + i] else Black
  }

  /** The walk `for p in pixels { image.put_pixel(x, y, p); x += 1; if x % width == 0 {
      y += 1; x = 0 } }` over a fresh (black) image. `put_pixel` panics on a position
      outside the image, which happens exactly when there are more pixels than cells
      (with width 0, at the first pixel). The ghost log `puts` lists the positions
      written: the k-th pixel goes to (k % width, k / width), so image cell (x, y)
      receives pixel y * width + x. */
  method PutAll(image: array2<Color>, pixels: seq<Color>) returns (ok: bool, ghost puts: seq<(nat, nat)>)
    requires Holds(image, [])
    modifies image
    ensures ok <==> |pixels| <= image.Length0 * image.Length1
    ensures ok ==> |puts| == |pixels| &&
                   forall k :: 0 <= k < |puts| ==> image.Length0 > 0 && puts[k] == (k % image.Length0, k / image.Length0)
    ensures ok ==> Holds(image, pixels)
  {
    var width, height := image.Length0, image.Length1;
    var x, y := 0, 0;
    puts := [];
    for k := 0 to |pixels|
      invariant k == y * width + x && (width > 0 ==> x < width) && (width == 0 ==> k == 0)
      invariant k <= width * height
      invariant |puts| == k && forall i :: 0 <= i < k ==> width > 0 && puts[i] == (i % width, i / width)
      invariant Holds(image, pixels[..k])
    {
      if x >= width || y >= height {
        if y >= height {
          MulLeMonotone(height, y, width);
        }
        return false, puts;
      }
      FlatIndexInRange(width, height, x, y);
      PutPixel(image, x, y, pixels[k], pixels[..k]);
      assert pixels[..k] + [pixels[k]] == pixels[..k + 1];
      FlatIndexDecompose(width, x, y);
      puts := puts + [(x, y)];
      x := x + 1;
      WrapsAtWidth(x, width);
      if x % width == 0 {
        assert (y + 1) * width == y * width + x;
        y := y + 1;
        x := 0;
      }
    }
    assert pixels[..|pixels|] == pixels;
    ok := true;
  }

  /** After the increment, `x % width == 0` tests exactly whether x reached the width. */
  lemma {:induction false} WrapsAtWidth(x: nat, width: nat)
    requires 0 < x <= width
    ensures x % width == 0 <==> x == width
  {
  }

  /** `image.put_pixel(x, y, p)` as the next pixel of the walk: cell (x, y), at flat
      index |done|, receives p and no other cell changes. */
  method PutPixel(image: array2<Color>, x: nat, y: nat, p: Color, ghost done: seq<Color>)
    requires x < image.Length0 && y < image.Length1 && |done| == y * image.Length0 + x
    requires Holds(image, done)
    modifies image
    ensures Holds(image, done + [p])
  {
    var width := image.Length0;
    image[x, y] := p;
    forall i, j | 0 <= i < image.Length0 && 0 <= j < image.Length1
      ensures image[i, j] == if j * width + i < |done| + 1 then (done + [p])[j * width + i] else Black
    {
      if j * width + i == |done| {
        FlatIndexInjective(width, i, j, x, y);
      }
    }
  }

  /** `save_png` / `save_png2` / `save_png_rational` up to the file write: a fresh
      width * height image receives the pixels in raster order. With fewer pixels than
      cells the rest stay black; with more, `put_pixel` panics; with exactly
      width * height pixels every cell (x, y) holds pixel y * width + x, the index every
      compute loop writes it at. */
  method SavePng(pixels: seq<Color>, width: nat, height: nat) returns (r: Result<array2<Color>>)
    ensures r.Panic? <==> |pixels| > width * height
    ensures r.Ok? ==> fresh(r.value) && r.value.Length0 == width && r.value.Length1 == height &&
                      Holds(r.value, pixels)
  {
    var image := NewImage(width, height);
    var ok;
    ghost var puts;
    ok, puts := PutAll(image, pixels);
    if !ok {
      return Panic("Image index out of bounds");
    }
    r := Ok(image);
  }

  /** With exactly width * height pixels the walk's positions (k % width, k / width)
      lie inside the image and are pairwise distinct, and every cell (x, y) is the
      position of pixel y * width + x: each cell is written exactly once. */
  lemma {:induction false} RasterPositions(width: nat, height: nat, k1: nat, k2: nat, x: nat, y: nat)
    requires k1 < k2 < width * height && x < width && y < height
    ensures width > 0 && k1 % width < width && k1 / width < height
    ensures (k1 % width, k1 / width) != (k2 % width, k2 / width)
    ensures y * width + x < width * height && ((y * width + x) % width, (y * width + x) / width) == (x, y)
  {
    FlatIndexSplit(width, height, k1);
    FlatIndexSplit(width, height, k2);
    FlatIndexInRange(width, height, x, y);
    FlatIndexDecompose(width, x, y);
  }
}

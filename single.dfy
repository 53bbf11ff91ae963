/** The single-threaded renderers: `calc_single_threaded` (pushing row-major), the
    brownbag `single_threaded` (writing a preallocated buffer in place) and `calc_rayon`
    (colouring a row-major list of pixels element by element). Each ends with exactly the
    row-major layout of the kernel over the canvas. */
module SingleThreaded {
  import opened Wrappers
  import opened Colors
  import opened Canvas
  import TileWorker
  import Collector
  import Ppm

  /** The nested `for y in 0..height { for x in 0..width { pixels.push(f(x, y)) } }`. */
  method FillRowMajor<T>(width: nat, height: nat, f: (nat, nat) -> T) returns (pixels: seq<T>)
    ensures pixels == RowMajor(width, height, f)
  {
    pixels := [];
    for y := 0 to height
      invariant pixels == RowMajor(width, y, f)
    {
      for x := 0 to width
        invariant pixels == RowMajor(width, y, f) + Row(width, y, f)[..x]
      {
        pixels := pixels + [f(x, y)];
        assert Row(width, y, f)[..x + 1] == Row(width, y, f)[..x] + [f(x, y)];
      }
      assert Row(width, y, f)[..width] == Row(width, y, f);
    }
  }

  /** `calc_single_threaded`: the colour count selects `color16()` or `color256()` (both
      tables are parameters) and any other count panics; then the pixels are pushed
      row-major and the image carries the requested size. */
  method CalcSingleThreaded(width: nat, height: nat, colors: nat, palette16: seq<Color>,
                            palette256: seq<Color>, kernel: Kernel)
    returns (r: Result<FractalImage>)
    ensures r.Panic? <==> colors != 16 && colors != 256
    ensures r.Ok? ==>
              var palette := if colors == 16 then palette16 else palette256;
              r.value == FractalImage(width, height, RowMajor(width, height, Bind(kernel, palette))) &&
              |r.value.pixels| == width * height
  {
    var selected := TileWorker.SelectPalette(colors, palette16, palette256);
    if selected.Panic? {
      return Panic(selected.reason);
    }
    var pixels := FillRowMajor(width, height, Bind(kernel, selected.value));
    RowMajorLength(width, height, Bind(kernel, selected.value));
    r := Ok(FractalImage(width, height, pixels));
  }

  /** The brownbag `single_threaded`: a width * height buffer of BLACK, filled in place
      row by row by `while y < height { .. ; y += 1 }`. The ghost log `written` lists the
      indices in the order they are written: every index of the buffer exactly once, in
      increasing order. The image is then written out by `write_to_ppm`, which cannot
      panic on a buffer of exactly width * height pixels. */
  method BrownbagSingleThreaded(width: nat, height: nat, f: (nat, nat) -> Color)
    returns (image: FractalImage, writes: seq<Ppm.Write>, ghost written: seq<nat>)
    ensures image == FractalImage(width, height, RowMajor(width, height, f))
    ensures |image.pixels| == width * height
    ensures writes == Ppm.PpmWrites(width, height, image.pixels)
    ensures written == seq(width * height, i => i)
  {
    var pixels := new Color[width * height](_ => Black);
    written := [];
    var y := 0;
    while y < height
      invariant y <= height
      invariant pixels[..y * width] == RowMajor(width, y, f)
      invariant written == seq(y * width, i => i)
    {
      MulLeMonotone(y + 1, height, width);
      written := FillRow(pixels, width, y, f, written);
      assert (y + 1) * width == y * width + width;
      y := y + 1;
    }
    assert y * width == width * height;
    assert pixels[..] == pixels[..y * width];
    image := FractalImage(width, height, pixels[..]);
    var saved := Ppm.WriteToPpm(image);
    writes := saved.value;
  }

  /** The body of the brownbag `while` loop: `for x in 0..width { pixels[y * width + x] =
      f(x, y) }`, which appends row y to the filled prefix and logs indices
      y * width .. y * width + width - 1. */
  method FillRow(pixels: array<Color>, width: nat, y: nat, f: (nat, nat) -> Color, ghost written: seq<nat>)
    returns (ghost written': seq<nat>)
    requires y * width + width <= pixels.Length && written == seq(y * width, i => i)
    modifies pixels
    ensures pixels[..y * width + width] == old(pixels[..y * width]) + Row(width, y, f)
    ensures written' == seq(y * width + width, i => i)
  {
    var start := y * width;
    written' := written;
    for x := 0 to width
      invariant pixels[..start + x] == old(pixels[..start]) + Row(width, y, f)[..x]
      invariant written' == seq(start + x, i => i)
    {
      var idx := start + x;
      pixels[idx] := f(x, y);
      written' := written' + [idx];
      assert pixels[..idx + 1] == pixels[..idx] + [f(x, y)];
      assert Row(width, y, f)[..x + 1] == Row(width, y, f)[..x] + [f(x, y)];
    }
    assert Row(width, y, f)[..width] == Row(width, y, f);
  }

  /** The rayon renderer's `Pixel { color, x, y }`. */
  datatype Pixel = Pixel(color: Color, x: nat, y: nat)

  /** The `par_iter_mut` pass: every pixel of the list gets the kernel's colour for its
      own (x, y). The elements are independent, so the parallel pass is modelled as one
      pass over the array in index order. */
  method ColorAll(pixels: array<Pixel>, f: (nat, nat) -> Color)
    modifies pixels
    ensures forall i :: 0 <= i < pixels.Length ==>
              pixels[i] == old(pixels[i]).(color := f(old(pixels[i]).x, old(pixels[i]).y))
  {
    for i := 0 to pixels.Length
      invariant forall j :: 0 <= j < i ==>
                  pixels[j] == old(pixels[j]).(color := f(old(pixels[j]).x, old(pixels[j]).y))
      invariant forall j :: i <= j < pixels.Length ==> pixels[j] == old(pixels[j])
    {
      pixels[i] := pixels[i].(color := f(pixels[i].x, pixels[i].y));
    }
  }

  /** `calc_rayon`: the palette is selected first (a bad colour count panics); the
      pixel list is built row-major with each element's own coordinates and the default
      colour, coloured in place, and its colours are collected in list order, which is
      again the row-major layout of the kernel. */
  method CalcRayon(width: nat, height: nat, colors: nat, palette16: seq<Color>,
                   palette256: seq<Color>, kernel: Kernel)
    returns (r: Result<FractalImage>)
    ensures r.Panic? <==> colors != 16 && colors != 256
    ensures r.Ok? ==>
              var palette := if colors == 16 then palette16 else palette256;
              r.value == FractalImage(width, height, RowMajor(width, height, Bind(kernel, palette)))
  {
    var selected := TileWorker.SelectPalette(colors, palette16, palette256);
    if selected.Panic? {
      return Panic(selected.reason);
    }
    var f := Bind(kernel, selected.value);
    var blank := (x: nat, y: nat) => Pixel(Black, x, y);
    var list := FillRowMajor(width, height, blank);
    var pixels := new Pixel[|list|](i requires 0 <= i < |list| => list[i]);
    ColorAll(pixels, f);
    var colored := seq(pixels.Length, i requires 0 <= i < pixels.Length reads pixels => pixels[i].color);
    RowMajorMap(width, height, blank, (p: Pixel) => f(p.x, p.y), f);
    assert colored == RowMajor(width, height, f);
    r := Ok(FractalImage(width, height, colored));
  }
}

/** Colours and the row-major layout of a width × height canvas in a flat buffer. */
module Colors {

  /** An 8-bit colour channel (`u8`). */
  type Byte = b: int | 0 <= b < 256

  datatype Color = Color(r: Byte, g: Byte, b: Byte)

  /** `Color::default()` and the brownbag `BLACK` constant. */
  const Black: Color := Color(0, 0, 0)

  /** `FractalImage { width, height, pixels }`. */
  datatype FractalImage = FractalImage(width: nat, height: nat, pixels: seq<Color>)

  /** The escape-time kernel `calc_fractal_color(x, y, .., &colors)`: a pure map from a
      palette and a pixel to a colour. Its numerics are not part of this model. */
  type Kernel = (seq<Color>, nat, nat) -> Color

  /** The kernel with its palette fixed, as the worker closures capture it. */
  function Bind(kernel: Kernel, palette: seq<Color>): (nat, nat) -> Color
  {
    (x: nat, y: nat) => kernel(palette, x, y)
  }
}

module Canvas {

  /** Row y of a width-wide canvas: the values f(0, y), .., f(width - 1, y). */
  function Row<T>(width: nat, y: nat, f: (nat, nat) -> T): (r: seq<T>)
    ensures |r| == width
    ensures forall x :: 0 <= x < width ==> r[x] == f(x, y)
  {
    seq(width, x requires 0 <= x < width => f(x, y))
  }

  /** The first `height` rows of the canvas laid out row-major: what the nested
      `for y in 0..height { for x in 0..width { push(f(x, y)) } }` loops build. */
  function RowMajor<T>(width: nat, height: nat, f: (nat, nat) -> T): seq<T>
    decreases height
  {
    if height == 0 then [] else RowMajor(width, height - 1, f) + Row(width, height - 1, f)
  }

  /** The flat index of pixel (x, y) lies inside the buffer. */
  lemma {:induction false} FlatIndexInRange(width: nat, height: nat, x: nat, y: nat)
    requires x < width && y < height
    ensures y * width + x < width * height
  {
    assert y * width + x < y * width + width == (y + 1) * width;
    MulLeMonotone(y + 1, height, width);
  }

  lemma {:induction false} MulLeMonotone(a: nat, b: nat, c: nat)
    requires a <= b
    ensures a * c <= b * c
  {
  }

  /** Two in-row pixels with the same flat index are the same pixel. */
  lemma {:induction false} FlatIndexInjective(width: nat, x1: nat, y1: nat, x2: nat, y2: nat)
    requires x1 < width && x2 < width
    requires y1 * width + x1 == y2 * width + x2
    ensures x1 == x2 && y1 == y2
  {
    if y1 < y2 {
      MulLeMonotone(y1 + 1, y2, width);
      assert false;
    } else if y2 < y1 {
      MulLeMonotone(y2 + 1, y1, width);
      assert false;
    }
  }

  /** The flat index y * width + x decomposes back into (x, y). */
  lemma {:induction false} FlatIndexDecompose(width: nat, x: nat, y: nat)
    requires x < width
    ensures (y * width + x) / width == y && (y * width + x) % width == x
  {
    var i := y * width + x;
    FlatIndexInjective(width, i % width, i / width, x, y);
  }

  /** Every flat index i < width * height names the pixel (i % width, i / width). */
  lemma {:induction false} FlatIndexSplit(width: nat, height: nat, i: nat)
    requires i < width * height
    ensures width > 0 && 0 <= i % width < width && 0 <= i / width < height
    ensures (i / width) * width + i % width == i
  {
    if i / width >= height {
      MulLeMonotone(height, i / width, width);
      assert false;
    }
  }

  /** Flat indices are ordered row first, then column. */
  lemma {:induction false} FlatIndexOrder(width: nat, i: nat, j: nat)
    requires width > 0 && i < j
    ensures i / width < j / width || (i / width == j / width && i % width < j % width)
  {
    if i / width > j / width {
      MulLeMonotone(j / width + 1, i / width, width);
      assert false;
    }
  }

  lemma {:induction false} RowMajorLength<T>(width: nat, height: nat, f: (nat, nat) -> T)
    ensures |RowMajor(width, height, f)| == width * height
    decreases height
  {
    if height > 0 {
      RowMajorLength(width, height - 1, f);
      assert width * height == width * (height - 1) + width;
    }
  }

  /** Entry y * width + x of the row-major layout is f(x, y). */
  lemma {:induction false} RowMajorEntry<T>(width: nat, height: nat, f: (nat, nat) -> T, x: nat, y: nat)
    requires x < width && y < height
    ensures |RowMajor(width, height, f)| == width * height
    ensures y * width + x < width * height && RowMajor(width, height, f)[y * width + x] == f(x, y)
    decreases height
  {
    RowMajorLength(width, height, f);
    FlatIndexInRange(width, height, x, y);
    RowMajorLength(width, height - 1, f);
    var prefix := RowMajor(width, height - 1, f);
    assert |prefix| == width * (height - 1);
    if y < height - 1 {
      RowMajorEntry(width, height - 1, f, x, y);
    } else {
      assert y * width == width * (height - 1);
    }
  }

  /** Entry i of the row-major layout is f(i % width, i / width). */
  lemma {:induction false} RowMajorIndex<T>(width: nat, height: nat, f: (nat, nat) -> T, i: nat)
    requires i < width * height
    ensures |RowMajor(width, height, f)| == width * height
    ensures width > 0 && RowMajor(width, height, f)[i] == f(i % width, i / width)
  {
    FlatIndexSplit(width, height, i);
    RowMajorEntry(width, height, f, i % width, i / width);
  }

  /** Mapping g over a row-major grid is the row-major grid of g after f
      (the rayon `par_iter_mut` colouring followed by the colour extraction). */
  lemma {:induction false} RowMajorMap<T, U>(width: nat, height: nat, f: (nat, nat) -> T, g: T -> U,
                                            h: (nat, nat) -> U)
    requires forall x: nat, y: nat :: h(x, y) == g(f(x, y))
    ensures |RowMajor(width, height, f)| == |RowMajor(width, height, h)|
    ensures forall i :: 0 <= i < |RowMajor(width, height, f)| ==>
              RowMajor(width, height, h)[i] == g(RowMajor(width, height, f)[i])
    decreases height
  {
    if height > 0 {
      RowMajorMap(width, height - 1, f, g, h);
    }
  }

  /** Two colourings that agree on the canvas lay out the same. */
  lemma {:induction false} RowMajorAgree<T>(width: nat, height: nat, f: (nat, nat) -> T, g: (nat, nat) -> T)
    requires forall x: nat, y: nat :: x < width && y < height ==> f(x, y) == g(x, y)
    ensures RowMajor(width, height, f) == RowMajor(width, height, g)
    decreases height
  {
    if height > 0 {
      RowMajorAgree(width, height - 1, f, g);
      assert Row(width, height - 1, f) == Row(width, height - 1, g);
    }
  }
}

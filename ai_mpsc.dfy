/** The AI-assistant renderer `created_by_ai_using_mpsc`: one thread per row computes the
    escape counts of its pixels and sends `(row, pixels)` over a channel; the main thread
    receives exactly `height` messages into a vector of rows and writes it as plain PPM.
    The float orbit of each pixel is a parameter: `orbit(x, y)(k)` tells whether the k-th
    iterate z_k of z -> z * z + c for that pixel's c still has |z_k|^2 <= 4. */
module AiMpsc {
  import opened Wrappers
  import opened Colors
  import opened Canvas
  import Ppm

  /** The escape count of an orbit: the first k < limit whose iterate has left the
      radius-2 disc, or limit when there is none. */
  function EscapeCount(bounded: nat -> bool, limit: nat, k: nat := 0): (ct: nat)
    requires k <= limit
    requires forall i :: 0 <= i < k ==> bounded(i)
    ensures k <= ct <= limit
    ensures forall i :: 0 <= i < ct ==> bounded(i)
    ensures ct < limit ==> !bounded(ct)
    decreases limit - k
  {
    if k == limit || !bounded(k) then k else EscapeCount(bounded, limit, k + 1)
  }

  /** The escape count is the only count with its defining property. */
  lemma {:induction false} EscapeUnique(bounded: nat -> bool, limit: nat, ct: nat)
    requires ct <= limit && (forall i :: 0 <= i < ct ==> bounded(i)) && (ct < limit ==> !bounded(ct))
    ensures ct == EscapeCount(bounded, limit)
  {
    var e := EscapeCount(bounded, limit);
    // The two instances that rule out ct < e and e < ct.
    var atCount, atEscape := bounded(ct), bounded(e);
  }

  /** The loop of `mandelbrot_set`: `while ct < limit && z.norm_sqr() <= 4.0 { z = z * z
      + c; ct += 1 }`. The guard keeps ct <= limit, and on exit either ct == limit or the
      current iterate has escaped. */
  method CountIterations(bounded: nat -> bool, limit: nat) returns (ct: nat)
    ensures ct <= limit
    ensures forall i :: 0 <= i < ct ==> bounded(i)
    ensures ct < limit ==> !bounded(ct)
  {
    ct := 0;
    while ct < limit && bounded(ct)
      invariant ct <= limit
      invariant forall i :: 0 <= i < ct ==> bounded(i)
    {
      ct := ct + 1;
    }
  }

  /** The colour of `mandelbrot_set` for escape count ct: black when the count reached
      the limit, otherwise (ct * 2, ct * 3, ct * 5) each cast to u8, which keeps the low
      eight bits. */
  function MandelbrotColor(ct: nat, limit: nat): Color
  {
    if ct == limit then Black else Color((ct * 2) % 256, (ct * 3) % 256, (ct * 5) % 256)
  }

  /** A pixel is black exactly when its count reached the limit or is a multiple of 256:
      every 256th escape count is painted like a point of the set. */
  lemma {:induction false} BlackIff(ct: nat, limit: nat)
    ensures MandelbrotColor(ct, limit) == Black <==> ct == limit || ct % 256 == 0
  {
    var q, r := ct / 256, ct % 256;
    assert ct == 256 * q + r;
    LowBits(q, 2 * r, 2);
    LowBits(q, 3 * r, 3);
    LowBits(q, 5 * r, 5);
    assert ct * 2 == 256 * (q * 2) + 2 * r;
    assert ct * 3 == 256 * (q * 3) + 3 * r;
    assert ct * 5 == 256 * (q * 5) + 5 * r;
  }

  lemma {:induction false} LowBits(q: nat, a: nat, m: nat)
    ensures (256 * (q * m) + a) % 256 == a % 256
  {
  }

  /** Escape counts 256 apart get the same colour (unless one of them is the limit). */
  lemma {:induction false} ColorPeriod(ct: nat, limit: nat)
    requires ct != limit && ct + 256 != limit
    ensures MandelbrotColor(ct + 256, limit) == MandelbrotColor(ct, limit)
  {
    LowBits(2, ct * 2, 1);
    LowBits(3, ct * 3, 1);
    LowBits(5, ct * 5, 1);
  }

  /** The colour the renderer computes for pixel (x, y). */
  function AiPixel(limit: nat, orbit: (nat, nat) -> nat -> bool): (nat, nat) -> Color
  {
    (x: nat, y: nat) => MandelbrotColor(EscapeCount(orbit(x, y), limit), limit)
  }

  /** `mandelbrot_set(c, limit)` for one pixel. */
  method MandelbrotSet(bounded: nat -> bool, limit: nat) returns (p: Color)
    ensures p == MandelbrotColor(EscapeCount(bounded, limit), limit)
  {
    var ct := CountIterations(bounded, limit);
    EscapeUnique(bounded, limit, ct);
    p := MandelbrotColor(ct, limit);
  }

  /** `worker`: the pixels of row `row`, for x in 0..width, sent as one message. */
  method Worker(row: nat, width: nat, limit: nat, orbit: (nat, nat) -> nat -> bool)
    returns (msg: (nat, seq<Color>))
    ensures msg == (row, Row(width, row, AiPixel(limit, orbit)))
  {
    var pixels := [];
    for x := 0 to width
      invariant pixels == Row(width, row, AiPixel(limit, orbit))[..x]
    {
      var p := MandelbrotSet(orbit(x, row), limit);
      assert AiPixel(limit, orbit)(x, row) == p;
      pixels := pixels + [p];
      assert Row(width, row, AiPixel(limit, orbit))[..x + 1] == pixels;
    }
    assert Row(width, row, AiPixel(limit, orbit))[..width] == Row(width, row, AiPixel(limit, orbit));
    msg := (row, pixels);
  }

  /** `vec![vec![BLACK; width]; height]`. */
  function BlackRows(width: nat, height: nat): (rows: seq<seq<Color>>)
    ensures |rows| == height && forall y :: 0 <= y < height ==> rows[y] == seq(width, _ => Black)
  {
    seq(height, _ => seq(width, _ => Black))
  }

  /** One received message copied into the rows: `img_data[row][column] = pixel` for
      every column, or None when the row or one of the columns does not exist (an index
      panic). The copied columns replace the front of the row; the rest stay. */
  function Store(img: seq<seq<Color>>, msg: (nat, seq<Color>)): (r: Option<seq<seq<Color>>>)
    ensures r.Some? <==> msg.0 < |img| && |msg.1| <= |img[msg.0]|
    ensures r.Some? ==> |r.value| == |img| && r.value[msg.0] == msg.1 + img[msg.0][|msg.1|..] &&
                        forall y :: 0 <= y < |img| && y != msg.0 ==> r.value[y] == img[y]
  {
    var (row, pixels) := msg;
    if row < |img| && |pixels| <= |img[row]| then Some(img[row := pixels + img[row][|pixels|..]]) else None
  }

  /** The rows after the messages have been stored in arrival order. */
  function Delivered(img: seq<seq<Color>>, msgs: seq<(nat, seq<Color>)>): Option<seq<seq<Color>>>
  {
    if msgs == [] then Some(img)
    else
      match Delivered(img, msgs[..|msgs| - 1])
      case None => None
      case Some(before) => Store(before, msgs[|msgs| - 1])
  }

  /** The inner loop `for (column, pixel) in pixels.iter().enumerate() { img_data[row][column]
      = *pixel }`. */
  method StoreRow(img: seq<seq<Color>>, row: nat, pixels: seq<Color>) returns (r: Option<seq<seq<Color>>>)
    ensures r == Store(img, (row, pixels))
  {
    if row >= |img| {
      return None;
    }
    var data := img;
    assert pixels[..0] + img[row][0..] == img[row];
    for column := 0 to |pixels|
      invariant |data| == |img| && column <= |img[row]|
      invariant data == img[row := pixels[..column] + img[row][column..]]
    {
      if column >= |data[row]| {
        return None;
      }
      data := data[row := data[row][column := pixels[column]]];
      assert pixels[..column + 1] + img[row][column + 1..] == data[row];
    }
    assert pixels[..|pixels|] == pixels;
    r := Some(data);
  }

  /** The receiving loop: `for _ in 0..height { let (row, pixels) = rx.recv().unwrap();
      .. }` over the messages in arrival order. Exactly height messages are received: the
      main thread keeps the original sender alive, so the loop counts messages rather than
      waiting for the channel to close. */
  method Collect(width: nat, height: nat, arrivals: seq<(nat, seq<Color>)>) returns (r: Result<seq<seq<Color>>>)
    requires |arrivals| == height
    ensures r.Panic? <==> Delivered(BlackRows(width, height), arrivals).None?
    ensures r.Ok? ==> Delivered(BlackRows(width, height), arrivals) == Some(r.value)
  {
    var img := BlackRows(width, height);
    for k := 0 to height
      invariant Delivered(BlackRows(width, height), arrivals[..k]) == Some(img)
    {
      assert arrivals[..k + 1][..k] == arrivals[..k];
      var (row, pixels) := arrivals[k];
      var stored := StoreRow(img, row, pixels);
      if stored.None? {
        DeliveredFails(BlackRows(width, height), arrivals, k + 1);
        assert arrivals[..height] == arrivals;
        return Panic("index out of bounds");
      }
      img := stored.value;
    }
    assert arrivals[..height] == arrivals;
    r := Ok(img);
  }

  /** A failed store stays failed whatever arrives afterwards. */
  lemma {:induction false} DeliveredFails(img: seq<seq<Color>>, msgs: seq<(nat, seq<Color>)>, k: nat)
    requires k <= |msgs| && Delivered(img, msgs[..k]).None?
    ensures Delivered(img, msgs).None?
    decreases |msgs| - k
  {
    if k < |msgs| {
      assert msgs[..k + 1][..k] == msgs[..k];
      DeliveredFails(img, msgs, k + 1);
    } else {
      assert msgs[..k] == msgs;
    }
  }

  /** The row indices 0 .. n - 1. */
  function Rows(n: nat): (r: seq<nat>)
    ensures |r| == n && forall i :: 0 <= i < n ==> r[i] == i
  {
    seq(n, i => i)
  }

  /** The message of each row's worker, in the order the rows arrive. */
  function Messages(order: seq<nat>, width: nat, f: (nat, nat) -> Color): (msgs: seq<(nat, seq<Color>)>)
    ensures |msgs| == |order| && forall k :: 0 <= k < |order| ==> msgs[k] == (order[k], Row(width, order[k], f))
  {
    seq(|order|, k requires 0 <= k < |order| => (order[k], Row(width, order[k], f)))
  }

  /** After some of the workers' messages arrived, their rows hold the computed pixels
      and every other row is still black. */
  lemma {:induction false} DeliveredPrefix(width: nat, height: nat, order: seq<nat>, f: (nat, nat) -> Color)
    requires forall k :: 0 <= k < |order| ==> order[k] < height
    ensures Delivered(BlackRows(width, height), Messages(order, width, f)).Some?
    ensures var rows := Delivered(BlackRows(width, height), Messages(order, width, f)).value;
            |rows| == height &&
            forall y :: 0 <= y < height ==> rows[y] == if y in order then Row(width, y, f) else seq(width, _ => Black)
  {
    var msgs := Messages(order, width, f);
    if order != [] {
      var n := |order| - 1;
      assert msgs[..n] == Messages(order[..n], width, f);
      DeliveredPrefix(width, height, order[..n], f);
      var before := Delivered(BlackRows(width, height), msgs[..n]).value;
      var y0 := order[n];
      assert Row(width, y0, f) + before[y0][width..] == Row(width, y0, f);
      forall y | 0 <= y < height
        ensures (y in order) == (y == y0 || y in order[..n])
      {
        assert order == order[..n] + [y0];
      }
    }
  }

  /** The rows of the canvas coloured by f. */
  function CanvasRows(width: nat, height: nat, f: (nat, nat) -> Color): (rows: seq<seq<Color>>)
    ensures |rows| == height && forall y :: 0 <= y < height ==> rows[y] == Row(width, y, f)
  {
    seq(height, y requires 0 <= y => Row(width, y, f))
  }

  /** Whatever order the rows arrive in, the collector ends with every row's pixels in
      place: the vector of rows is the canvas. */
  lemma {:induction false} AllRowsDelivered(width: nat, height: nat, order: seq<nat>, f: (nat, nat) -> Color)
    requires multiset(order) == multiset(Rows(height))
    ensures Delivered(BlackRows(width, height), Messages(order, width, f)) ==
            Some(CanvasRows(width, height, f))
  {
    forall k | 0 <= k < |order|
      ensures order[k] < height
    {
      assert order[k] in multiset(Rows(height));
    }
    forall y | 0 <= y < height
      ensures y in order
    {
      assert Rows(height)[y] == y;
      assert y in multiset(Rows(height));
    }
    DeliveredPrefix(width, height, order, f);
    var rows := Delivered(BlackRows(width, height), Messages(order, width, f)).value;
    assert rows == CanvasRows(width, height, f);
  }

  /** `created_by_ai_using_mpsc` up to the file: height workers, one per row; their
      messages arrive in `order` (the channel delivers every message once, in some order);
      the collector stores them and the rows are written as plain PPM. The file is the one
      the flat writer produces for the row-major layout of the pixel colours, and nothing
      panics. */
  method CreatedByAiUsingMpsc(width: nat, height: nat, limit: nat, orbit: (nat, nat) -> nat -> bool,
                              order: seq<nat>)
    returns (r: Result<seq<Ppm.Write>>)
    requires multiset(order) == multiset(Rows(height))
    ensures r.Ok? && |RowMajor(width, height, AiPixel(limit, orbit))| == width * height &&
            r.value == Ppm.PpmWrites(width, height, RowMajor(width, height, AiPixel(limit, orbit)))
  {
    var f := AiPixel(limit, orbit);
    assert |order| == height by {
      assert |multiset(order)| == |multiset(Rows(height))|;
    }
    var arrivals := [];
    for k := 0 to height
      invariant arrivals == Messages(order[..k], width, f)
    {
      var msg := Worker(order[k], width, limit, orbit);
      arrivals := arrivals + [msg];
    }
    assert order[..height] == order;
    AllRowsDelivered(width, height, order, f);
    var collected := Collect(width, height, arrivals);
    var rows := collected.value;
    GridAgrees(width, height, rows, f);
    r := Ppm.WriteRowsToPpm(rows, width, height);
  }

  /** The collected rows cover the canvas and read as the colouring itself. */
  lemma {:induction false} GridAgrees(width: nat, height: nat, rows: seq<seq<Color>>, f: (nat, nat) -> Color)
    requires rows == CanvasRows(width, height, f)
    ensures Ppm.Covers(rows, width, height)
    ensures RowMajor(width, height, Ppm.Grid(rows)) == RowMajor(width, height, f)
  {
    RowMajorAgree(width, height, Ppm.Grid(rows), f);
  }
}

/** The brownbag `multi_threaded_mpsc`: `cores` tile workers drain one shared cursor
    and send each tile's points over a channel to a receiver thread, which merges
    them into a black buffer until the channel closes. */
module BrownbagMpsc {
  import opened Wrappers
  import opened Colors
  import opened Canvas
  import opened ImageTile
  import opened TileWorker
  import opened Collector
  import Ppm

  /** The hard-coded number of tile rows. */
  const YTiles: nat := 50

  /** The cursor as written: `x_tiles = width` (one-column tiles) and `y_tiles = 50`.
      A zero width divides by zero. */
  function TilingAsWritten(width: nat, height: nat): (r: Result<Cursor>)
    ensures r.Panic? <==> width == 0
    ensures r.Ok? ==> r.value == Tiles(width, height, width, YTiles) && r.value.xInc == 1
  {
    if width == 0 then Panic("attempt to divide by zero") else Ok(Tiles(width, height, width, YTiles))
  }

  /** With 1 to 49 rows, height / 50 is 0: y never advances, so `next` never returns
      None and the workers never stop, however many tiles they take. */
  lemma {:induction false} ShortCanvasNeverEnds(width: nat, height: nat, n: nat)
    requires width > 0 && 0 < height < YTiles
    ensures TilingAsWritten(width, height).Ok?
    ensures var c := Advance(TilingAsWritten(width, height).value, n);
            c.Some? && Step(c.value).Some?
  {
    TooManyTilesNeverEnds(width, height, width, YTiles, n);
  }

  /** The evidently intended row count: 50 bands, or one band per row when the canvas
      has fewer than 50 rows. */
  function YTilesFor(height: nat): (r: nat)
    ensures 1 <= r <= YTiles && (height > 0 ==> r <= height)
  {
    if 0 < height < YTiles then height else YTiles
  }

  /** The corrected cursor. */
  function Tiling(width: nat, height: nat): (r: Result<Cursor>)
    ensures r.Panic? <==> width == 0
    ensures r.Ok? ==> r.value == Tiles(width, height, width, YTilesFor(height)) && r.value.xInc == 1
  {
    if width == 0 then Panic("attempt to divide by zero") else Ok(Tiles(width, height, width, YTilesFor(height)))
  }

  /** The corrected cursor runs dry for every canvas with at least one column. */
  lemma {:induction false} TilingRunsDry(width: nat, height: nat)
    requires width > 0
    ensures Tiling(width, height).Ok? && Progressing(Tiling(width, height).value)
  {
    TilesRunDry(width, height, width, YTilesFor(height));
  }

  /** `multi_threaded_mpsc` with the corrected cursor: the workers run in the
      interleaving `schedule`; the receiver outlives them, so no send fails; once the
      last worker has ended the channel closes and the receiver returns its buffer,
      which `write_to_ppm` then writes out. */
  method MultiThreadedMpsc(width: nat, height: nat, cores: nat, f: (nat, nat) -> Color, schedule: seq<nat>)
    returns (r: Result<(FractalImage, seq<Ppm.Write>)>)
    ensures r.Panic? <==> width == 0
    ensures r.Ok? ==>
              var (image, writes) := r.value;
              image.width == width && image.height == height &&
              image.pixels == (if cores > 0 then RowMajor(width, height, f) else Blank(width * height)) &&
              |image.pixels| == width * height &&
              writes == Ppm.PpmWrites(width, height, image.pixels)
  {
    var tiling := Tiling(width, height);
    if tiling.Panic? {
      return Panic(tiling.reason);
    }
    TilingRunsDry(width, height);
    var cursor := new CanvasTile(width, height, width, YTilesFor(height));
    var sent, lost, counts;
    ghost var claimed, sentTiles, lostTiles;
    sent, lost, counts, claimed, sentTiles, lostTiles := RunTileWorkers(cursor, cores, schedule, {}, f);
    ghost var expected := Blank(width * height);
    if cores > 0 {
      DeliveredCanvas(width, height, width, YTilesFor(height), f, sentTiles, lostTiles, sent);
      expected := RowMajor(width, height, f);
    } else {
      assert multiset(sentTiles) == multiset{};
      assert sent == [];
      assert Overlay(expected, width, Points(sent)) == Some(expected);
    }
    var joined := ReceiveTiles(width, height, sent);
    var pixels := WaitForReceiverThread(joined);
    var image := FractalImage(width, height, pixels);
    var saved := Ppm.WriteToPpm(image);
    return Ok((image, saved.value));
  }
}

/** The collectors that turn `TileData` messages back into a flat width * height
    buffer: every point is written at index y * width + x. `Overlay` is the pure
    meaning of those writes; `MergePoints` performs them on an array. The theorems
    show that merging the results of the cursor's tiles, in whatever order they
    arrive, gives the buffer the single-threaded row-major loop produces, and that
    the pixels of a tile whose message was lost stay at their initial colour. */
module Collector {
  import opened Wrappers
  import opened Colors
  import opened Canvas
  import opened ImageTile
  import opened TileWorker

  /** The initial buffer: `vec![Color::default(); width * height]` (server) and
      `vec![BLACK; width * height]` (brownbag receiver) alike. */
  function Blank(n: nat): (r: seq<Color>)
    ensures |r| == n && forall i :: 0 <= i < n ==> r[i] == Black
  {
    seq(n, _ => Black)
  }

  /** The flat index a point is written at. */
  function Index(p: TileDataPoint, width: nat): nat
  {
    p.y * width + p.x
  }

  /** The points of a sequence of messages, message after message. */
  function Points(msgs: seq<TileData>): seq<TileDataPoint>
    decreases |msgs|
  {
    if msgs == [] then [] else Points(msgs[..|msgs| - 1]) + msgs[|msgs| - 1].points
  }

  /** Writing `points` one after the other into `buf`; None when an index lies
      outside the buffer (the indexing `pixels[idx] = ..` panics there). */
  function Overlay(buf: seq<Color>, width: nat, points: seq<TileDataPoint>): (r: Option<seq<Color>>)
    ensures r.Some? ==> |r.value| == |buf|
    decreases |points|
  {
    if points == [] then Some(buf)
    else
      match Overlay(buf, width, points[..|points| - 1])
      case None => None
      case Some(b) =>
        var p := points[|points| - 1];
        if Index(p, width) < |b| then Some(b[Index(p, width) := p.c]) else None
  }

  lemma {:induction false} PointsSnoc(msgs: seq<TileData>, j: nat)
    requires j < |msgs|
    ensures Points(msgs[..j + 1]) == Points(msgs[..j]) + msgs[j].points
  {
    assert msgs[..j + 1][..j] == msgs[..j];
  }

  /** Writing a + b is writing a, then b. */
  lemma {:induction false} OverlayAppend(buf: seq<Color>, width: nat, a: seq<TileDataPoint>, b: seq<TileDataPoint>)
    ensures Overlay(buf, width, a + b) ==
            match Overlay(buf, width, a)
            case None => None
            case Some(m) => Overlay(m, width, b)
    decreases |b|
  {
    if b == [] {
      assert a + b == a;
    } else {
      var n := |b| - 1;
      OverlayAppend(buf, width, a, b[..n]);
      assert (a + b)[..|a + b| - 1] == a + b[..n];
    }
  }

  /** The writes succeed exactly when every index lies inside the buffer. */
  lemma {:induction false} OverlayDefined(buf: seq<Color>, width: nat, points: seq<TileDataPoint>)
    ensures Overlay(buf, width, points).Some? <==>
            forall k :: 0 <= k < |points| ==> Index(points[k], width) < |buf|
    decreases |points|
  {
    if points != [] {
      var n := |points| - 1;
      OverlayDefined(buf, width, points[..n]);
      assert forall k :: 0 <= k < n ==> points[..n][k] == points[k];
    }
  }

  /** An index no point names keeps its initial colour. */
  lemma {:induction false} OverlayUntouched(buf: seq<Color>, width: nat, points: seq<TileDataPoint>, i: nat)
    requires Overlay(buf, width, points).Some? && i < |buf|
    requires forall k :: 0 <= k < |points| ==> Index(points[k], width) != i
    ensures Overlay(buf, width, points).value[i] == buf[i]
    decreases |points|
  {
    if points != [] {
      var n := |points| - 1;
      assert forall k :: 0 <= k < n ==> points[..n][k] == points[k];
      OverlayUntouched(buf, width, points[..n], i);
    }
  }

  /** A point a worker computed: on the canvas, with the kernel's colour for it. */
  predicate Faithful(p: TileDataPoint, width: nat, height: nat, f: (nat, nat) -> Color)
  {
    p.x < width && p.y < height && p.c == f(p.x, p.y)
  }

  /** When every point is faithful, all writes succeed and every written index ends
      with the colour of the point that names it (all such points agree). */
  lemma {:induction false} OverlayFaithful(buf: seq<Color>, width: nat, height: nat, f: (nat, nat) -> Color,
                                           points: seq<TileDataPoint>)
    requires |buf| == width * height
    requires forall k :: 0 <= k < |points| ==> Faithful(points[k], width, height, f)
    ensures Overlay(buf, width, points).Some?
    ensures forall k :: 0 <= k < |points| ==>
              Index(points[k], width) < |buf| &&
              Overlay(buf, width, points).value[Index(points[k], width)] == points[k].c
    decreases |points|
  {
    if points != [] {
      var n := |points| - 1;
      var pre := points[..n];
      assert forall k :: 0 <= k < n ==> pre[k] == points[k];
      OverlayFaithful(buf, width, height, f, pre);
      var b := Overlay(buf, width, pre).value;
      var p := points[n];
      FlatIndexInRange(width, height, p.x, p.y);
      forall k | 0 <= k < |points|
        ensures Index(points[k], width) < |buf| &&
                Overlay(buf, width, points).value[Index(points[k], width)] == points[k].c
      {
        var q := points[k];
        FlatIndexInRange(width, height, q.x, q.y);
        if k < n && Index(q, width) == Index(p, width) {
          FlatIndexInjective(width, q.x, q.y, p.x, p.y);
        }
      }
    }
  }

  /** The k-th point of a message sequence comes from some message. */
  lemma {:induction false} PointsFrom(msgs: seq<TileData>, k: nat) returns (j: nat, m: nat)
    requires k < |Points(msgs)|
    ensures j < |msgs| && m < |msgs[j].points| && Points(msgs)[k] == msgs[j].points[m]
    decreases |msgs|
  {
    var n := |msgs| - 1;
    if k < |Points(msgs[..n])| {
      j, m := PointsFrom(msgs[..n], k);
    } else {
      j, m := n, k - |Points(msgs[..n])|;
    }
  }

  /** Every point of every message is among the message sequence's points. */
  lemma {:induction false} PointsContains(msgs: seq<TileData>, j: nat, m: nat) returns (k: nat)
    requires j < |msgs| && m < |msgs[j].points|
    ensures k < |Points(msgs)| && Points(msgs)[k] == msgs[j].points[m]
    decreases |msgs|
  {
    var n := |msgs| - 1;
    if j < n {
      k := PointsContains(msgs[..n], j, m);
    } else {
      k := |Points(msgs[..n])| + m;
    }
  }

  /** A tile's points lie in the tile, with the kernel's colours. */
  lemma {:induction false} ResultsFaithful(tiles: seq<Tile>, width: nat, height: nat, f: (nat, nat) -> Color)
    requires forall j :: 0 <= j < |tiles| ==> tiles[j].xTo <= width && tiles[j].yTo <= height
    ensures forall k :: 0 <= k < |Points(Results(tiles, f))| ==>
              Faithful(Points(Results(tiles, f))[k], width, height, f)
  {
    var msgs := Results(tiles, f);
    forall k | 0 <= k < |Points(msgs)|
      ensures Faithful(Points(msgs)[k], width, height, f)
    {
      var j, m := PointsFrom(msgs, k);
      TilePointAt(tiles[j], f, m);
    }
  }

  /** The tiles of a cursor that runs dry, in any order: all inside the canvas. */
  lemma {:induction false} OrderInCanvas(width: nat, height: nat, xTiles: nat, yTiles: nat, order: seq<Tile>)
    requires xTiles > 0 && yTiles > 0 && Progressing(Tiles(width, height, xTiles, yTiles))
    requires multiset(order) <= multiset(TilesFrom(Tiles(width, height, xTiles, yTiles)))
    ensures forall j :: 0 <= j < |order| ==> order[j].xTo <= width && order[j].yTo <= height
  {
    var all := TilesFrom(Tiles(width, height, xTiles, yTiles));
    TilesWellFormed(Tiles(width, height, xTiles, yTiles));
    forall j | 0 <= j < |order|
      ensures order[j].xTo <= width && order[j].yTo <= height
    {
      assert order[j] in multiset(order);
      assert order[j] in all;
    }
  }

  /** A pixel covered by one of the merged tiles gets the kernel's colour. */
  lemma {:induction false} MergedPixel(tiles: seq<Tile>, width: nat, height: nat, f: (nat, nat) -> Color, j: nat, x: nat, y: nat)
    requires forall i :: 0 <= i < |tiles| ==> tiles[i].xTo <= width && tiles[i].yTo <= height
    requires j < |tiles| && InTile(tiles[j], x, y)
    ensures Overlay(Blank(width * height), width, Points(Results(tiles, f))).Some?
    ensures |Overlay(Blank(width * height), width, Points(Results(tiles, f))).value| == width * height
    ensures y * width + x < width * height &&
            Overlay(Blank(width * height), width, Points(Results(tiles, f))).value[y * width + x] == f(x, y)
  {
    var msgs := Results(tiles, f);
    ResultsFaithful(tiles, width, height, f);
    OverlayFaithful(Blank(width * height), width, height, f, Points(msgs));
    var m := TilePixelPresent(tiles[j], f, x, y);
    var k := PointsContains(msgs, j, m);
    assert Points(msgs)[k] == TileDataPoint(x, y, f(x, y));
  }

  /** Headline: merging the results of all of the cursor's tiles, in any arrival
      order, yields exactly the row-major buffer of the single-threaded loop. */
  lemma {:induction false} AnyArrivalOrder(width: nat, height: nat, xTiles: nat, yTiles: nat, f: (nat, nat) -> Color,
                        order: seq<Tile>)
    requires xTiles > 0 && yTiles > 0 && Progressing(Tiles(width, height, xTiles, yTiles))
    requires multiset(order) == multiset(TilesFrom(Tiles(width, height, xTiles, yTiles)))
    ensures Overlay(Blank(width * height), width, Points(Results(order, f))) == Some(RowMajor(width, height, f))
  {
    MergeSucceeds(width, height, xTiles, yTiles, f, order);
    var r := Overlay(Blank(width * height), width, Points(Results(order, f))).value;
    RowMajorLength(width, height, f);
    assert |r| == width * height;
    forall i | 0 <= i < width * height
      ensures r[i] == RowMajor(width, height, f)[i]
    {
      CanvasIndex(width, height, xTiles, yTiles, f, order, i);
    }
    assert r == RowMajor(width, height, f);
  }

  /** Merging the results of tiles of the cursor never writes outside the buffer. */
  lemma {:induction false} MergeSucceeds(width: nat, height: nat, xTiles: nat, yTiles: nat, f: (nat, nat) -> Color,
                      order: seq<Tile>)
    requires xTiles > 0 && yTiles > 0 && Progressing(Tiles(width, height, xTiles, yTiles))
    requires multiset(order) <= multiset(TilesFrom(Tiles(width, height, xTiles, yTiles)))
    ensures Overlay(Blank(width * height), width, Points(Results(order, f))).Some?
  {
    OrderInCanvas(width, height, xTiles, yTiles, order);
    ResultsFaithful(order, width, height, f);
    OverlayFaithful(Blank(width * height), width, height, f, Points(Results(order, f)));
  }

  /** Entry i of the merged buffer is entry i of the row-major canvas. */
  lemma {:induction false} CanvasIndex(width: nat, height: nat, xTiles: nat, yTiles: nat, f: (nat, nat) -> Color,
                    order: seq<Tile>, i: nat)
    requires xTiles > 0 && yTiles > 0 && Progressing(Tiles(width, height, xTiles, yTiles))
    requires multiset(order) == multiset(TilesFrom(Tiles(width, height, xTiles, yTiles)))
    requires i < width * height
    ensures Overlay(Blank(width * height), width, Points(Results(order, f))).Some?
    ensures |RowMajor(width, height, f)| == width * height
    ensures Overlay(Blank(width * height), width, Points(Results(order, f))).value[i] == RowMajor(width, height, f)[i]
  {
    FlatIndexSplit(width, height, i);
    CanvasPixel(width, height, xTiles, yTiles, f, order, i % width, i / width);
    PixelAtIndex(width, height, Overlay(Blank(width * height), width, Points(Results(order, f))).value, f, i);
  }

  /** A buffer holding f(x, y) at y * width + x for the pixel of flat index i holds entry
      i of the row-major canvas there. */
  lemma {:induction false} PixelAtIndex(width: nat, height: nat, a: seq<Color>, f: (nat, nat) -> Color, i: nat)
    requires i < width * height && width > 0
    requires (i / width) * width + i % width < |a| && a[(i / width) * width + i % width] == f(i % width, i / width)
    ensures |RowMajor(width, height, f)| == width * height
    ensures i < |a| && a[i] == RowMajor(width, height, f)[i]
  {
    RowMajorIndex(width, height, f, i);
    FlatIndexSplit(width, height, i);
  }

  /** Each canvas pixel lies in a tile of the order and so gets the kernel's colour. */
  lemma {:induction false} CanvasPixel(width: nat, height: nat, xTiles: nat, yTiles: nat, f: (nat, nat) -> Color,
                    order: seq<Tile>, x: nat, y: nat)
    requires xTiles > 0 && yTiles > 0 && Progressing(Tiles(width, height, xTiles, yTiles))
    requires multiset(order) == multiset(TilesFrom(Tiles(width, height, xTiles, yTiles)))
    requires x < width && y < height
    ensures Overlay(Blank(width * height), width, Points(Results(order, f))).Some?
    ensures y * width + x < width * height &&
            Overlay(Blank(width * height), width, Points(Results(order, f))).value[y * width + x] == f(x, y)
  {
    var all := TilesFrom(Tiles(width, height, xTiles, yTiles));
    OrderInCanvas(width, height, xTiles, yTiles, order);
    TilesCoverCanvas(width, height, xTiles, yTiles);
    assert InCanvas(width, height, x, y);
    var k :| 0 <= k < |all| && InTile(all[k], x, y);
    assert all[k] in multiset(order);
    var j :| 0 <= j < |order| && order[j] == all[k];
    MergedPixel(order, width, height, f, j, x, y);
  }

  /** When no send fails, the merged buffer of whatever the workers sent is the
      row-major canvas. */
  lemma {:induction false} DeliveredCanvas(width: nat, height: nat, xTiles: nat, yTiles: nat, f: (nat, nat) -> Color,
                        sentTiles: seq<Tile>, lostTiles: seq<Tile>, sent: seq<TileData>)
    requires xTiles > 0 && yTiles > 0 && Progressing(Tiles(width, height, xTiles, yTiles))
    requires multiset(sentTiles) + multiset(lostTiles) == multiset(TilesFrom(Tiles(width, height, xTiles, yTiles)))
    requires lostTiles == [] && sent == Results(sentTiles, f)
    ensures Overlay(Blank(width * height), width, Points(sent)) == Some(RowMajor(width, height, f))
  {
    assert multiset(sentTiles) == multiset(TilesFrom(Tiles(width, height, xTiles, yTiles)));
    AnyArrivalOrder(width, height, xTiles, yTiles, f, sentTiles);
  }

  /** The cursor never hands out the same tile twice. */
  lemma {:induction false} TilesOnce(width: nat, height: nat, xTiles: nat, yTiles: nat, t: Tile)
    requires xTiles > 0 && yTiles > 0 && Progressing(Tiles(width, height, xTiles, yTiles))
    ensures multiset(TilesFrom(Tiles(width, height, xTiles, yTiles)))[t] <= 1
  {
    var all := TilesFrom(Tiles(width, height, xTiles, yTiles));
    TilesWellFormed(Tiles(width, height, xTiles, yTiles));
    CountDistinct(all, t);
  }

  /** In a sequence of tiles with pairwise different idx, each tile occurs at most once. */
  lemma {:induction false} CountDistinct(s: seq<Tile>, t: Tile)
    requires forall k :: 0 <= k < |s| ==> s[k].idx == s[0].idx + k
    ensures multiset(s)[t] <= 1
    decreases |s|
  {
    if s != [] {
      var n := |s| - 1;
      assert s == s[..n] + [s[n]];
      assert forall k :: 0 <= k < n ==> s[..n][k] == s[k];
      CountDistinct(s[..n], t);
      if s[n] == t {
        assert forall k :: 0 <= k < n ==> s[..n][k] != t;
      }
    }
  }

  /** A tile whose message was lost keeps the initial black on all its pixels, while
      the pixels of the delivered tiles get the kernel's colours. */
  lemma {:induction false} LostTilesStayBlack(width: nat, height: nat, xTiles: nat, yTiles: nat, f: (nat, nat) -> Color,
                           delivered: seq<Tile>, lost: seq<Tile>, t: Tile, x: nat, y: nat)
    requires xTiles > 0 && yTiles > 0 && Progressing(Tiles(width, height, xTiles, yTiles))
    requires multiset(delivered) + multiset(lost) == multiset(TilesFrom(Tiles(width, height, xTiles, yTiles)))
    requires t in lost && InTile(t, x, y)
    ensures Overlay(Blank(width * height), width, Points(Results(delivered, f))).Some?
    ensures y * width + x < width * height &&
            Overlay(Blank(width * height), width, Points(Results(delivered, f))).value[y * width + x] == Black
  {
    var pts := Points(Results(delivered, f));
    var i := y * width + x;
    assert i >= 0 by {
      MulLeMonotone(0, y, width);
    }
    assert Overlay(Blank(width * height), width, pts).Some? by {
      assert multiset(delivered) <= multiset(TilesFrom(Tiles(width, height, xTiles, yTiles)));
      MergeSucceeds(width, height, xTiles, yTiles, f, delivered);
    }
    assert i < width * height by {
      LostInCanvas(width, height, xTiles, yTiles, delivered, lost, t);
      FlatIndexInRange(width, height, x, y);
    }
    forall k | 0 <= k < |pts|
      ensures Index(pts[k], width) != i
    {
      PointElsewhere(width, height, xTiles, yTiles, f, delivered, lost, t, x, y, k);
    }
    OverlayUntouched(Blank(width * height), width, pts, i);
  }

  /** No point of a delivered tile lands on a pixel of a lost tile. */
  lemma {:induction false} PointElsewhere(width: nat, height: nat, xTiles: nat, yTiles: nat, f: (nat, nat) -> Color,
                       delivered: seq<Tile>, lost: seq<Tile>, t: Tile, x: nat, y: nat, k: nat)
    requires xTiles > 0 && yTiles > 0 && Progressing(Tiles(width, height, xTiles, yTiles))
    requires multiset(delivered) + multiset(lost) == multiset(TilesFrom(Tiles(width, height, xTiles, yTiles)))
    requires t in lost && InTile(t, x, y)
    requires k < |Points(Results(delivered, f))|
    ensures Index(Points(Results(delivered, f))[k], width) != y * width + x
  {
    var msgs := Results(delivered, f);
    var j, m := PointsFrom(msgs, k);
    assert msgs[j] == TileResult(delivered[j], f);
    TilePointAt(delivered[j], f, m);
    var p := Points(msgs)[k];
    assert InTile(delivered[j], p.x, p.y);
    LostInCanvas(width, height, xTiles, yTiles, delivered, lost, t);
    assert multiset(delivered) <= multiset(TilesFrom(Tiles(width, height, xTiles, yTiles)));
    OrderInCanvas(width, height, xTiles, yTiles, delivered);
    if Index(p, width) == y * width + x {
      FlatIndexInjective(width, p.x, p.y, x, y);
      NotDelivered(width, height, xTiles, yTiles, delivered, lost, t, j, x, y);
    }
  }

  lemma {:induction false} LostInCanvas(width: nat, height: nat, xTiles: nat, yTiles: nat, delivered: seq<Tile>, lost: seq<Tile>,
                      t: Tile)
    requires xTiles > 0 && yTiles > 0 && Progressing(Tiles(width, height, xTiles, yTiles))
    requires multiset(delivered) + multiset(lost) == multiset(TilesFrom(Tiles(width, height, xTiles, yTiles)))
    requires t in lost
    ensures t.xTo <= width && t.yTo <= height
  {
    TilesWellFormed(Tiles(width, height, xTiles, yTiles));
    assert t in multiset(TilesFrom(Tiles(width, height, xTiles, yTiles)));
  }

  /** No delivered tile shares a pixel with a lost one. */
  lemma {:induction false} NotDelivered(width: nat, height: nat, xTiles: nat, yTiles: nat, delivered: seq<Tile>, lost: seq<Tile>,
                     t: Tile, j: nat, x: nat, y: nat)
    requires xTiles > 0 && yTiles > 0 && Progressing(Tiles(width, height, xTiles, yTiles))
    requires multiset(delivered) + multiset(lost) == multiset(TilesFrom(Tiles(width, height, xTiles, yTiles)))
    requires t in lost && InTile(t, x, y) && j < |delivered|
    ensures !InTile(delivered[j], x, y)
  {
    var all := TilesFrom(Tiles(width, height, xTiles, yTiles));
    assert t in multiset(all);
    var kt :| 0 <= kt < |all| && all[kt] == t;
    assert delivered[j] in multiset(all);
    var kd :| 0 <= kd < |all| && all[kd] == delivered[j];
    if kd < kt {
      TilesDisjoint(Tiles(width, height, xTiles, yTiles), kd, kt, x, y);
    } else if kt < kd {
      TilesDisjoint(Tiles(width, height, xTiles, yTiles), kt, kd, x, y);
    } else {
      assert multiset(delivered)[t] >= 1 && multiset(lost)[t] >= 1;
      TilesOnce(width, height, xTiles, yTiles, t);
      assert false;
    }
  }

  /** The `for_each` over a message's points: each colour is written at
      y * width + x; an index outside the buffer stops the collector (a panic). */
  method MergePoints(pixels: array<Color>, width: nat, points: seq<TileDataPoint>) returns (inBounds: bool)
    modifies pixels
    ensures inBounds <==> Overlay(old(pixels[..]), width, points).Some?
    ensures inBounds ==> pixels[..] == Overlay(old(pixels[..]), width, points).value
  {
    ghost var start := pixels[..];
    var k := 0;
    while k < |points|
      invariant 0 <= k <= |points|
      invariant Overlay(start, width, points[..k]) == Some(pixels[..])
    {
      var p := points[k];
      var idx := p.y * width + p.x;
      assert points[..k + 1][..k] == points[..k];
      if idx >= pixels.Length {
        OverlayAppend(start, width, points[..k + 1], points[k + 1..]);
        assert points[..k + 1] + points[k + 1..] == points;
        return false;
      }
      pixels[idx] := p.c;
      k := k + 1;
    }
    assert points[..k] == points;
    return true;
  }

  /** Collector helper: after merging message j, the buffer holds the overlay of all
      points of messages 0..j. */
  lemma {:induction false} MergeNext(buf: seq<Color>, width: nat, msgs: seq<TileData>, j: nat, before: seq<Color>)
    requires j < |msgs| && Overlay(buf, width, Points(msgs[..j])) == Some(before)
    ensures Overlay(buf, width, Points(msgs[..j + 1])) == Overlay(before, width, msgs[j].points)
  {
    PointsSnoc(msgs, j);
    OverlayAppend(buf, width, Points(msgs[..j]), msgs[j].points);
  }

  /** A failed write on message j makes the overlay of all messages fail too. */
  lemma {:induction false} MergeFails(buf: seq<Color>, width: nat, msgs: seq<TileData>, j: nat)
    requires j < |msgs| && Overlay(buf, width, Points(msgs[..j + 1])).None?
    ensures Overlay(buf, width, Points(msgs)).None?
  {
    OverlayDefined(buf, width, Points(msgs[..j + 1]));
    OverlayDefined(buf, width, Points(msgs));
    var k :| 0 <= k < |Points(msgs[..j + 1])| && Index(Points(msgs[..j + 1])[k], width) >= |buf|;
    var j', m := PointsFrom(msgs[..j + 1], k);
    var k' := PointsContains(msgs, j', m);
  }

  /** What the server's collector task does, in order. */
  datatype Event =
    | Merged(idx: nat)          // the tile's points were written into the buffer
    | Forwarded(data: TileData) // the tile was sent to the client as a text message
    | ForwardFailed(data: TileData) // the socket send failed; only logged
    | Saved(pixels: seq<Color>) // `save_png2` of the final buffer

  /** The outcome of `websocket_tx.send(msg)` for one tile. */
  function Forward(data: TileData, failed: bool): Event
  {
    if failed then ForwardFailed(data) else Forwarded(data)
  }

  /** The events of merging and forwarding `received`, message by message; the
      message at position j is forwarded unless j is in `socketFails`. */
  function EventLog(received: seq<TileData>, socketFails: set<nat>): seq<Event>
    decreases |received|
  {
    if received == [] then []
    else
      var n := |received| - 1;
      EventLog(received[..n], socketFails) + [Merged(received[n].idx), Forward(received[n], n in socketFails)]
  }

  /** Each message is merged, then forwarded (or its send failure logged); nothing in
      the loop saves the image. */
  lemma {:induction false} EventLogShape(received: seq<TileData>, socketFails: set<nat>)
    ensures |EventLog(received, socketFails)| == 2 * |received|
    ensures forall j :: 0 <= j < |received| ==>
              EventLog(received, socketFails)[2 * j] == Merged(received[j].idx) &&
              EventLog(received, socketFails)[2 * j + 1] == Forward(received[j], j in socketFails)
    ensures forall i :: 0 <= i < |EventLog(received, socketFails)| ==> !EventLog(received, socketFails)[i].Saved?
    decreases |received|
  {
    if received != [] {
      var n := |received| - 1;
      EventLogShape(received[..n], socketFails);
      assert forall j :: 0 <= j < n ==> received[..n][j] == received[j];
    }
  }

  /** The collector task of `handle_request_crossbeam_tiles`: for each message in
      channel order, merge its points, then forward it on the socket (a failed send,
      for the message positions in `socketFails`, is only logged); when the channel
      closes, save the image once. */
  method ServerCollector(width: nat, height: nat, received: seq<TileData>, socketFails: set<nat>)
    returns (r: Result<(seq<Color>, seq<Event>)>)
    ensures r.Ok? <==> Overlay(Blank(width * height), width, Points(received)).Some?
    ensures r.Ok? ==>
              r.value.0 == Overlay(Blank(width * height), width, Points(received)).value &&
              r.value.1 == EventLog(received, socketFails) + [Saved(r.value.0)]
  {
    var buffer := new Color[width * height](_ => Black);
    ghost var blank := buffer[..];
    assert blank == Blank(width * height);
    var events: seq<Event> := [];
    var j := 0;
    while j < |received|
      invariant 0 <= j <= |received|
      invariant Overlay(blank, width, Points(received[..j])) == Some(buffer[..])
      invariant events == EventLog(received[..j], socketFails)
    {
      ghost var before := buffer[..];
      var ok := MergePoints(buffer, width, received[j].points);
      MergeNext(blank, width, received, j, before);
      if !ok {
        MergeFails(blank, width, received, j);
        return Panic("index out of bounds");
      }
      assert received[..j + 1][..j] == received[..j];
      events := events + [Merged(received[j].idx), Forward(received[j], j in socketFails)];
      j := j + 1;
    }
    assert received[..j] == received;
    events := events + [Saved(buffer[..])];
    return Ok((buffer[..], events));
  }

  /** The brownbag receiver thread: merge every message until the channel closes,
      then return the buffer. */
  method ReceiveTiles(width: nat, height: nat, received: seq<TileData>) returns (r: Result<seq<Color>>)
    ensures r.Ok? <==> Overlay(Blank(width * height), width, Points(received)).Some?
    ensures r.Ok? ==> r.value == Overlay(Blank(width * height), width, Points(received)).value
  {
    var pixels := new Color[width * height](_ => Black);
    ghost var blank := pixels[..];
    assert blank == Blank(width * height);
    var j := 0;
    while j < |received|
      invariant 0 <= j <= |received|
      invariant Overlay(blank, width, Points(received[..j])) == Some(pixels[..])
    {
      ghost var before := pixels[..];
      var ok := MergePoints(pixels, width, received[j].points);
      MergeNext(blank, width, received, j, before);
      if !ok {
        MergeFails(blank, width, received, j);
        return Panic("index out of bounds");
      }
      j := j + 1;
    }
    assert received[..j] == received;
    return Ok(pixels[..]);
  }

  /** `wait_for_receiver_thread`: a receiver that panicked yields an empty buffer. */
  function WaitForReceiverThread(joined: Result<seq<Color>>): (pixels: seq<Color>)
    ensures joined.Panic? ==> pixels == []
    ensures joined.Ok? ==> pixels == joined.value
  {
    match joined
    case Ok(res) => res
    case Panic(_) => []
  }
}

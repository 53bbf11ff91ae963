/** The tile cursor `CanvasTile`: a seven-counter state machine that walks a
    width × height canvas in row-major rectangular tiles. The pure function `Step`
    describes one call of `next`; `TilesFrom` is the whole remaining sequence. */
module ImageTile {
  import opened Wrappers

  /** A half-open rectangle [xFrom, xTo) × [yFrom, yTo) and its running number. */
  datatype Tile = Tile(xFrom: nat, xTo: nat, yFrom: nat, yTo: nat, idx: nat)

  predicate InTile(t: Tile, x: int, y: int)
  {
    t.xFrom <= x < t.xTo && t.yFrom <= y < t.yTo
  }

  /** The value of the seven counters of a `CanvasTile`. */
  datatype Cursor = Cursor(x: nat, y: nat, xInc: nat, yInc: nat, width: nat, height: nat, idx: nat)

  /** `tiles(width, height, x_tiles, y_tiles)`: increments by integer division,
      counters at 0. A zero tile count divides by zero, hence the precondition. */
  function Tiles(width: nat, height: nat, xTiles: nat, yTiles: nat): (c: Cursor)
    requires xTiles > 0 && yTiles > 0
    ensures c.x == 0 && c.y == 0 && c.idx == 0 && c.width == width && c.height == height
    ensures c.xInc * xTiles <= width < (c.xInc + 1) * xTiles
    ensures c.yInc * yTiles <= height < (c.yInc + 1) * yTiles
  {
    Cursor(0, 0, width / xTiles, height / yTiles, width, height, 0)
  }

  /** One call of `next`: None once y has reached the height, otherwise the tile at
      (x, y) clipped to the canvas, after which x moves on by xInc and wraps to the
      next band of rows when it reaches the width. */
  function Step(c: Cursor): (r: Option<(Tile, Cursor)>)
    ensures r.None? <==> c.y >= c.height
    ensures r.Some? ==>
              var (t, c') := r.value;
              t.idx == c.idx && c'.idx == c.idx + 1 &&
              t.xFrom == c.x && t.yFrom == c.y &&
              t.yTo <= c.height && (c.x <= c.width ==> t.xTo <= c.width) &&
              c'.xInc == c.xInc && c'.yInc == c.yInc && c'.width == c.width && c'.height == c.height
  {
    if c.y >= c.height then None
    else
      var xTo := if c.x + c.xInc > c.width then c.width else c.x + c.xInc;
      var yTo := if c.y + c.yInc > c.height then c.height else c.y + c.yInc;
      var t := Tile(c.x, xTo, c.y, yTo, c.idx);
      var x := c.x + c.xInc;
      var c' := if x >= c.width then c.(x := 0, y := c.y + c.yInc, idx := c.idx + 1)
                else c.(x := x, idx := c.idx + 1);
      Some((t, c'))
  }

  /** A cursor that runs dry: either it already has, or y moves on by a positive yInc
      and, on a canvas with columns, x moves on by a positive xInc. */
  predicate Progressing(c: Cursor)
  {
    c.y >= c.height || (c.yInc >= 1 && (c.width > 0 ==> c.xInc >= 1))
  }

  /** x inside the canvas, or at 0 on an empty-width canvas: true of every cursor
      that `tiles` builds and that `next` produces from one. */
  predicate XInRange(c: Cursor)
  {
    c.x < c.width || c.x == 0
  }

  lemma {:induction false} StepProgresses(c: Cursor)
    requires Progressing(c) && c.y < c.height
    ensures Step(c).Some? && Progressing(Step(c).value.1)
    ensures XInRange(c) ==> XInRange(Step(c).value.1)
  {
  }

  /** The tiles a progressing cursor still hands out, in order. */
  function TilesFrom(c: Cursor): seq<Tile>
    requires Progressing(c)
    decreases c.height - c.y, c.width - c.x
  {
    match Step(c)
    case None => []
    case Some((t, c')) => [t] + TilesFrom(c')
  }

  /** The part of the canvas a cursor has not yet handed out: the rest of the current
      band of rows from column x on, and every band below it. */
  predicate Remaining(c: Cursor, px: int, py: int)
  {
    c.y < c.height && 0 <= px < c.width &&
    ((c.y <= py < c.y + c.yInc && py < c.height && c.x <= px) || (c.y + c.yInc <= py < c.height))
  }

  lemma {:induction false} StartRemaining(width: nat, height: nat, xTiles: nat, yTiles: nat, px: int, py: int)
    requires xTiles > 0 && yTiles > 0 && Progressing(Tiles(width, height, xTiles, yTiles))
    ensures Remaining(Tiles(width, height, xTiles, yTiles), px, py) <==> 0 <= px < width && 0 <= py < height
  {
  }

  /** The tile a step hands out, and the cursor after it, split the remaining region:
      the tile lies in it, and what remains afterwards is the rest of it. */
  lemma {:induction false} StepSplits(c: Cursor, px: int, py: int)
    requires Progressing(c) && c.y < c.height
    ensures InTile(Step(c).value.0, px, py) ==> Remaining(c, px, py)
    ensures Remaining(Step(c).value.1, px, py) ==> Remaining(c, px, py) && !InTile(Step(c).value.0, px, py)
    ensures Remaining(c, px, py) ==> InTile(Step(c).value.0, px, py) || Remaining(Step(c).value.1, px, py)
  {
  }

  /** Every tile still to come is inside the canvas, numbered in sequence, at least one
      row high, and non-empty unless the canvas has no columns. */
  lemma {:induction false} TilesWellFormed(c: Cursor)
    requires Progressing(c) && XInRange(c)
    ensures forall k :: 0 <= k < |TilesFrom(c)| ==>
              var t := TilesFrom(c)[k];
              t.idx == c.idx + k && t.xFrom <= t.xTo <= c.width && t.yFrom < t.yTo <= c.height &&
              (c.width > 0 ==> t.xFrom < t.xTo)
    decreases c.height - c.y, c.width - c.x
  {
    if c.y < c.height {
      StepProgresses(c);
      var (t, c') := Step(c).value;
      TilesWellFormed(c');
      assert TilesFrom(c) == [t] + TilesFrom(c');
    }
  }

  /** Every pixel of a tile still to come lies in the cursor's remaining region. */
  lemma {:induction false} TilesSound(c: Cursor, k: nat, px: int, py: int)
    requires Progressing(c) && k < |TilesFrom(c)|
    requires InTile(TilesFrom(c)[k], px, py)
    ensures Remaining(c, px, py)
    decreases c.height - c.y, c.width - c.x
  {
    StepProgresses(c);
    var (t, c') := Step(c).value;
    StepSplits(c, px, py);
    if k > 0 {
      assert TilesFrom(c)[k] == TilesFrom(c')[k - 1];
      TilesSound(c', k - 1, px, py);
    }
  }

  /** Every pixel of the remaining region lies in some tile still to come. */
  lemma {:induction false} TilesCover(c: Cursor, px: int, py: int)
    requires Progressing(c) && Remaining(c, px, py)
    ensures exists k :: 0 <= k < |TilesFrom(c)| && InTile(TilesFrom(c)[k], px, py)
    decreases c.height - c.y, c.width - c.x
  {
    StepProgresses(c);
    var (t, c') := Step(c).value;
    StepSplits(c, px, py);
    assert TilesFrom(c) == [t] + TilesFrom(c');
    if InTile(t, px, py) {
      assert InTile(TilesFrom(c)[0], px, py);
    } else {
      TilesCover(c', px, py);
      var k :| 0 <= k < |TilesFrom(c')| && InTile(TilesFrom(c')[k], px, py);
      assert InTile(TilesFrom(c)[k + 1], px, py);
    }
  }

  /** No pixel lies in two different tiles. */
  lemma {:induction false} TilesDisjoint(c: Cursor, k1: nat, k2: nat, px: int, py: int)
    requires Progressing(c) && k1 < k2 < |TilesFrom(c)|
    ensures !(InTile(TilesFrom(c)[k1], px, py) && InTile(TilesFrom(c)[k2], px, py))
    decreases c.height - c.y, c.width - c.x
  {
    StepProgresses(c);
    var (t, c') := Step(c).value;
    assert TilesFrom(c) == [t] + TilesFrom(c');
    assert TilesFrom(c)[k2] == TilesFrom(c')[k2 - 1];
    if k1 == 0 {
      if InTile(TilesFrom(c')[k2 - 1], px, py) {
        TilesSound(c', k2 - 1, px, py);
        StepSplits(c, px, py);
      }
    } else {
      assert TilesFrom(c)[k1] == TilesFrom(c')[k1 - 1];
      TilesDisjoint(c', k1 - 1, k2 - 1, px, py);
    }
  }

  /** ceil(n / d) for a positive divisor, as repeated subtraction. */
  function CeilDiv(n: int, d: nat): nat
    requires d > 0
    decreases n
  {
    if n <= 0 then 0 else 1 + CeilDiv(n - d, d)
  }

  /** CeilDiv is the ceiling of the quotient: the least q with n <= q * d. */
  lemma {:induction false} CeilDivIsCeiling(n: int, d: nat)
    requires d > 0
    ensures n <= 0 ==> CeilDiv(n, d) == 0
    ensures n > 0 ==> (CeilDiv(n, d) - 1) * d < n <= CeilDiv(n, d) * d
    decreases n
  {
    if n > 0 {
      CeilDivIsCeiling(n - d, d);
      var q := CeilDiv(n - d, d);
      assert CeilDiv(n, d) * d == q * d + d;
    }
  }

  lemma {:induction false} MulSucc(a: int, b: int)
    ensures a + a * b == a * (b + 1)
  {
  }

  /** The number of tiles still to come: the rest of the current band plus
      ceil(width / xInc) tiles for every further band. */
  lemma {:induction false} TilesCountFrom(c: Cursor)
    requires Progressing(c) && c.y < c.height && c.x < c.width
    ensures |TilesFrom(c)| == CeilDiv(c.width - c.x, c.xInc)
                               + CeilDiv(c.width, c.xInc) * (CeilDiv(c.height - c.y, c.yInc) - 1)
    decreases c.height - c.y, c.width - c.x
  {
    StepProgresses(c);
    var (t, c') := Step(c).value;
    assert |TilesFrom(c)| == 1 + |TilesFrom(c')|;
    var cw := CeilDiv(c.width, c.xInc);
    if c.x + c.xInc < c.width {
      TilesCountFrom(c');
    } else {
      assert CeilDiv(c.width - c.x, c.xInc) == 1;
      if c'.y < c.height {
        TilesCountFrom(c');
        assert CeilDiv(c.height - c.y, c.yInc) == 1 + CeilDiv(c.height - c'.y, c.yInc);
        var b := CeilDiv(c.height - c'.y, c.yInc);
        assert CeilDiv(c'.width - c'.x, c.xInc) == cw;
        MulSucc(cw, b - 1);
      } else {
        assert CeilDiv(c.height - c.y, c.yInc) == 1;
      }
    }
  }

  /** Some tile of the sequence contains pixel (px, py). */
  predicate Covered(tiles: seq<Tile>, px: int, py: int)
  {
    exists k :: 0 <= k < |tiles| && InTile(tiles[k], px, py)
  }

  predicate InCanvas(width: nat, height: nat, px: int, py: int)
  {
    0 <= px < width && 0 <= py < height
  }

  /** With 1 <= x_tiles <= width and 1 <= y_tiles <= height the cursor hands out
      exactly ceil(width / xInc) * ceil(height / yInc) non-empty tiles numbered
      0, 1, .., inside the canvas. */
  lemma {:induction false} TilesCount(width: nat, height: nat, xTiles: nat, yTiles: nat)
    requires 1 <= xTiles <= width && 1 <= yTiles <= height
    ensures var c := Tiles(width, height, xTiles, yTiles);
            Progressing(c) &&
            |TilesFrom(c)| == CeilDiv(width, c.xInc) * CeilDiv(height, c.yInc) &&
            forall k :: 0 <= k < |TilesFrom(c)| ==>
              TilesFrom(c)[k].idx == k && TilesFrom(c)[k].xFrom < TilesFrom(c)[k].xTo <= width &&
              TilesFrom(c)[k].yFrom < TilesFrom(c)[k].yTo <= height
  {
    var c := Tiles(width, height, xTiles, yTiles);
    assert c.xInc >= 1 && c.yInc >= 1;
    TilesWellFormed(c);
    TilesCountFrom(c);
  }

  /** Whenever the cursor runs dry, a pixel lies in one of its tiles exactly when it
      lies on the canvas. */
  lemma {:induction false} TilesCoverCanvas(width: nat, height: nat, xTiles: nat, yTiles: nat)
    requires xTiles > 0 && yTiles > 0 && Progressing(Tiles(width, height, xTiles, yTiles))
    ensures var c := Tiles(width, height, xTiles, yTiles);
            forall px, py :: InCanvas(width, height, px, py) <==> Covered(TilesFrom(c), px, py)
  {
    var c := Tiles(width, height, xTiles, yTiles);
    forall px, py
      ensures InCanvas(width, height, px, py) <==> Covered(TilesFrom(c), px, py)
    {
      StartRemaining(width, height, xTiles, yTiles, px, py);
      if InCanvas(width, height, px, py) {
        TilesCover(c, px, py);
      }
      if Covered(TilesFrom(c), px, py) {
        var k :| 0 <= k < |TilesFrom(c)| && InTile(TilesFrom(c)[k], px, py);
        TilesSound(c, k, px, py);
      }
    }
  }

  /** Whenever the cursor runs dry, no two of its tiles share a pixel. */
  lemma {:induction false} TilesPairwiseDisjoint(width: nat, height: nat, xTiles: nat, yTiles: nat)
    requires xTiles > 0 && yTiles > 0 && Progressing(Tiles(width, height, xTiles, yTiles))
    ensures var c := Tiles(width, height, xTiles, yTiles);
            forall k1, k2, px, py :: 0 <= k1 < k2 < |TilesFrom(c)| ==>
              !(InTile(TilesFrom(c)[k1], px, py) && InTile(TilesFrom(c)[k2], px, py))
  {
    var c := Tiles(width, height, xTiles, yTiles);
    forall k1, k2, px, py | 0 <= k1 < k2 < |TilesFrom(c)|
      ensures !(InTile(TilesFrom(c)[k1], px, py) && InTile(TilesFrom(c)[k2], px, py))
    {
      TilesDisjoint(c, k1, k2, px, py);
    }
  }

  /** A cursor built by `tiles` runs dry exactly when the tile counts do not exceed
      the canvas (an empty canvas side imposes nothing); otherwise it is stuck. */
  lemma {:induction false} TilesRunDry(width: nat, height: nat, xTiles: nat, yTiles: nat)
    requires xTiles > 0 && yTiles > 0
    ensures Progressing(Tiles(width, height, xTiles, yTiles)) <==>
              height == 0 || (yTiles <= height && (width == 0 || xTiles <= width))
    ensures Progressing(Tiles(width, height, xTiles, yTiles)) != Stuck(Tiles(width, height, xTiles, yTiles))
  {
  }

  /** The cursor after n calls of `next`, or None if one of them returned None. */
  function Advance(c: Cursor, n: nat): Option<Cursor>
    decreases n
  {
    if n == 0 then Some(c)
    else match Step(c)
      case None => None
      case Some((_, c')) => Advance(c', n - 1)
  }

  /** A cursor that can never run dry: a zero yInc never moves y, and a zero xInc with
      x inside the canvas never reaches the wrap that moves y. */
  predicate Stuck(c: Cursor)
  {
    c.y < c.height && (c.yInc == 0 || (c.xInc == 0 && c.x < c.width))
  }

  lemma {:induction false} StuckForever(c: Cursor, n: nat)
    requires Stuck(c)
    ensures Advance(c, n).Some? && Stuck(Advance(c, n).value) && Step(Advance(c, n).value).Some?
    decreases n
  {
    if n > 0 {
      StuckForever(Step(c).value.1, n - 1);
    }
  }

  /** x_tiles > width (with a non-empty canvas) or y_tiles > height makes an increment
      zero, and then `next` returns a tile on every call, however many calls are made. */
  lemma {:induction false} TooManyTilesNeverEnds(width: nat, height: nat, xTiles: nat, yTiles: nat, n: nat)
    requires xTiles > 0 && yTiles > 0 && height > 0
    requires (xTiles > width && width > 0) || yTiles > height
    ensures var c := Advance(Tiles(width, height, xTiles, yTiles), n);
            c.Some? && Step(c.value).Some?
  {
    StuckForever(Tiles(width, height, xTiles, yTiles), n);
  }

  /** The nine tiles of `tiles(9, 9, 2, 2)`, then None. */
  lemma {:induction false} NineByNineInTwos()
    ensures TilesFrom(Tiles(9, 9, 2, 2)) ==
      [Tile(0, 4, 0, 4, 0), Tile(4, 8, 0, 4, 1), Tile(8, 9, 0, 4, 2),
       Tile(0, 4, 4, 8, 3), Tile(4, 8, 4, 8, 4), Tile(8, 9, 4, 8, 5),
       Tile(0, 4, 8, 9, 6), Tile(4, 8, 8, 9, 7), Tile(8, 9, 8, 9, 8)]
  {
    var c0 := Tiles(9, 9, 2, 2);
    assert c0 == Cursor(0, 0, 4, 4, 9, 9, 0);
    var c1, c2, c3 := Cursor(4, 0, 4, 4, 9, 9, 1), Cursor(8, 0, 4, 4, 9, 9, 2), Cursor(0, 4, 4, 4, 9, 9, 3);
    var c4, c5, c6 := Cursor(4, 4, 4, 4, 9, 9, 4), Cursor(8, 4, 4, 4, 9, 9, 5), Cursor(0, 8, 4, 4, 9, 9, 6);
    var c7, c8, c9 := Cursor(4, 8, 4, 4, 9, 9, 7), Cursor(8, 8, 4, 4, 9, 9, 8), Cursor(0, 12, 4, 4, 9, 9, 9);
    assert TilesFrom(c9) == [];
    assert Step(c8) == Some((Tile(8, 9, 8, 9, 8), c9));
    assert TilesFrom(c8) == [Tile(8, 9, 8, 9, 8)] + TilesFrom(c9);
    assert Step(c7) == Some((Tile(4, 8, 8, 9, 7), c8));
    assert TilesFrom(c7) == [Tile(4, 8, 8, 9, 7)] + TilesFrom(c8);
    assert Step(c6) == Some((Tile(0, 4, 8, 9, 6), c7));
    assert TilesFrom(c6) == [Tile(0, 4, 8, 9, 6)] + TilesFrom(c7);
    assert Step(c5) == Some((Tile(8, 9, 4, 8, 5), c6));
    assert TilesFrom(c5) == [Tile(8, 9, 4, 8, 5)] + TilesFrom(c6);
    assert Step(c4) == Some((Tile(4, 8, 4, 8, 4), c5));
    assert TilesFrom(c4) == [Tile(4, 8, 4, 8, 4)] + TilesFrom(c5);
    assert Step(c3) == Some((Tile(0, 4, 4, 8, 3), c4));
    assert TilesFrom(c3) == [Tile(0, 4, 4, 8, 3)] + TilesFrom(c4);
    assert Step(c2) == Some((Tile(8, 9, 0, 4, 2), c3));
    assert TilesFrom(c2) == [Tile(8, 9, 0, 4, 2)] + TilesFrom(c3);
    assert Step(c1) == Some((Tile(4, 8, 0, 4, 1), c2));
    assert TilesFrom(c1) == [Tile(4, 8, 0, 4, 1)] + TilesFrom(c2);
    assert Step(c0) == Some((Tile(0, 4, 0, 4, 0), c1));
    assert TilesFrom(c0) == [Tile(0, 4, 0, 4, 0)] + TilesFrom(c1);
  }

  /** The nine 3 × 3 tiles of `tiles(9, 9, 3, 3)` in row-major order, then None. */
  lemma {:induction false} NineByNineInThrees()
    ensures TilesFrom(Tiles(9, 9, 3, 3)) ==
      [Tile(0, 3, 0, 3, 0), Tile(3, 6, 0, 3, 1), Tile(6, 9, 0, 3, 2),
       Tile(0, 3, 3, 6, 3), Tile(3, 6, 3, 6, 4), Tile(6, 9, 3, 6, 5),
       Tile(0, 3, 6, 9, 6), Tile(3, 6, 6, 9, 7), Tile(6, 9, 6, 9, 8)]
  {
    var c0 := Tiles(9, 9, 3, 3);
    assert c0 == Cursor(0, 0, 3, 3, 9, 9, 0);
    var c1 := Cursor(3, 0, 3, 3, 9, 9, 1);
    var c2 := Cursor(6, 0, 3, 3, 9, 9, 2);
    var c3 := Cursor(0, 3, 3, 3, 9, 9, 3);
    var c4 := Cursor(3, 3, 3, 3, 9, 9, 4);
    var c5 := Cursor(6, 3, 3, 3, 9, 9, 5);
    var c6 := Cursor(0, 6, 3, 3, 9, 9, 6);
    var c7 := Cursor(3, 6, 3, 3, 9, 9, 7);
    var c8 := Cursor(6, 6, 3, 3, 9, 9, 8);
    var c9 := Cursor(0, 9, 3, 3, 9, 9, 9);
    assert TilesFrom(c9) == [];
    assert Step(c8) == Some((Tile(6, 9, 6, 9, 8), c9));
    assert TilesFrom(c8) == [Tile(6, 9, 6, 9, 8)] + TilesFrom(c9);
    assert Step(c7) == Some((Tile(3, 6, 6, 9, 7), c8));
    assert TilesFrom(c7) == [Tile(3, 6, 6, 9, 7)] + TilesFrom(c8);
    assert Step(c6) == Some((Tile(0, 3, 6, 9, 6), c7));
    assert TilesFrom(c6) == [Tile(0, 3, 6, 9, 6)] + TilesFrom(c7);
    assert Step(c5) == Some((Tile(6, 9, 3, 6, 5), c6));
    assert TilesFrom(c5) == [Tile(6, 9, 3, 6, 5)] + TilesFrom(c6);
    assert Step(c4) == Some((Tile(3, 6, 3, 6, 4), c5));
    assert TilesFrom(c4) == [Tile(3, 6, 3, 6, 4)] + TilesFrom(c5);
    assert Step(c3) == Some((Tile(0, 3, 3, 6, 3), c4));
    assert TilesFrom(c3) == [Tile(0, 3, 3, 6, 3)] + TilesFrom(c4);
    assert Step(c2) == Some((Tile(6, 9, 0, 3, 2), c3));
    assert TilesFrom(c2) == [Tile(6, 9, 0, 3, 2)] + TilesFrom(c3);
    assert Step(c1) == Some((Tile(3, 6, 0, 3, 1), c2));
    assert TilesFrom(c1) == [Tile(3, 6, 0, 3, 1)] + TilesFrom(c2);
    assert Step(c0) == Some((Tile(0, 3, 0, 3, 0), c1));
    assert TilesFrom(c0) == [Tile(0, 3, 0, 3, 0)] + TilesFrom(c1);
  }

  /** `CanvasTile`: the cursor object whose `next` updates its counters in place. */
  class CanvasTile {
    var x: nat
    var y: nat
    var xInc: nat
    var yInc: nat
    var width: nat
    var height: nat
    var idx: nat

    function State(): Cursor
      reads this
    {
      Cursor(x, y, xInc, yInc, width, height, idx)
    }

    /** `tiles(width, height, x_tiles, y_tiles)`. */
    constructor (width: nat, height: nat, xTiles: nat, yTiles: nat)
      requires xTiles > 0 && yTiles > 0
      ensures State() == Tiles(width, height, xTiles, yTiles)
    {
      this.x := 0;
      this.y := 0;
      this.xInc := width / xTiles;
      this.yInc := height / yTiles;
      this.width := width;
      this.height := height;
      this.idx := 0;
    }

    /** `next`: the tile at the counters, which then advance. */
    method Next() returns (t: Option<Tile>)
      modifies this
      ensures Step(old(State())).None? ==> t.None? && State() == old(State())
      ensures Step(old(State())).Some? ==>
                t == Some(Step(old(State())).value.0) && State() == Step(old(State())).value.1
    {
      if y >= height {
        return None;
      }
      var xFrom := x;
      var xTo := if x + xInc > width then width else x + xInc;
      var yFrom := y;
      var yTo := if yFrom + yInc > height then height else yFrom + yInc;
      t := Some(Tile(xFrom, xTo, yFrom, yTo, idx));
      idx := idx + 1;
      x := x + xInc;
      if x >= width {
        x := 0;
        y := y + yInc;
      }
    }

    /** `peekable().peek().is_some()` on a copy of the cursor: whether `next` would
        hand out a tile. The cursor itself is not advanced. */
    method HasNext() returns (b: bool)
      ensures b <==> Step(State()).Some?
    {
      var copy := State();
      b := Step(copy).Some?;
    }
  }
}

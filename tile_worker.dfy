/** The tile workers of `calc_multi_threaded_crossbeam_tiles` (and of the brownbag
    `start_calc_threads`): each worker drains a shared `CanvasTile`, computes the
    points of every tile it takes and sends them as one `TileData` message.
    Threads are replaced by a scheduler that interleaves the workers' steps in any
    order a schedule dictates. */
module TileWorker {
  import opened Wrappers
  import opened Colors
  import opened Canvas
  import opened ImageTile

  /** `TileDataPoint::new(x, y, c)`: one computed pixel. */
  datatype TileDataPoint = TileDataPoint(x: nat, y: nat, c: Color)

  /** `TileData::new(idx, points)`: the message a worker sends for one tile. */
  datatype TileData = TileData(idx: nat, points: seq<TileDataPoint>)

  /** The length of the range `from..to` (empty when to <= from). */
  function Span(from: nat, to: nat): nat
  {
    if to > from then to - from else 0
  }

  /** The point the loops emit at offset (i, j) from the tile's corner. */
  function TileGrid(t: Tile, f: (nat, nat) -> Color): (nat, nat) -> TileDataPoint
  {
    (i: nat, j: nat) => TileDataPoint(t.xFrom + i, t.yFrom + j, f(t.xFrom + i, t.yFrom + j))
  }

  /** The points of tile t in the order `for y in y_from..y_to { for x in x_from..x_to }`
      emits them. */
  function TilePoints(t: Tile, f: (nat, nat) -> Color): seq<TileDataPoint>
  {
    RowMajor(Span(t.xFrom, t.xTo), Span(t.yFrom, t.yTo), TileGrid(t, f))
  }

  /** The message for tile t. */
  function TileResult(t: Tile, f: (nat, nat) -> Color): TileData
  {
    TileData(t.idx, TilePoints(t, f))
  }

  /** The messages for a sequence of tiles. */
  function Results(tiles: seq<Tile>, f: (nat, nat) -> Color): seq<TileData>
  {
    seq(|tiles|, k requires 0 <= k < |tiles| => TileResult(tiles[k], f))
  }

  /** A tile yields (x_to - x_from) * (y_to - y_from) points. */
  lemma {:induction false} TilePointsCount(t: Tile, f: (nat, nat) -> Color)
    ensures |TilePoints(t, f)| == Span(t.xFrom, t.xTo) * Span(t.yFrom, t.yTo)
  {
    RowMajorLength(Span(t.xFrom, t.xTo), Span(t.yFrom, t.yTo), TileGrid(t, f));
  }

  /** The k-th point is the pixel at column k % w and row k / w of the tile, inside
      the tile, with the kernel's colour for it. */
  lemma {:induction false} TilePointAt(t: Tile, f: (nat, nat) -> Color, k: nat)
    requires k < |TilePoints(t, f)|
    ensures var p := TilePoints(t, f)[k];
            var w := Span(t.xFrom, t.xTo);
            w > 0 && p.x == t.xFrom + k % w && p.y == t.yFrom + k / w &&
            InTile(t, p.x, p.y) && p.c == f(p.x, p.y)
  {
    var w, h := Span(t.xFrom, t.xTo), Span(t.yFrom, t.yTo);
    RowMajorLength(w, h, TileGrid(t, f));
    FlatIndexSplit(w, h, k);
    var i, j := k % w, k / w;
    RowMajorEntry(w, h, TileGrid(t, f), i, j);
    assert j * w + i == k;
    assert TilePoints(t, f)[k] == TileGrid(t, f)(i, j);
  }

  /** Every pixel of the tile appears, at its row-major position within the tile. */
  lemma {:induction false} TilePixelPresent(t: Tile, f: (nat, nat) -> Color, x: nat, y: nat) returns (k: nat)
    requires InTile(t, x, y)
    ensures k == (y - t.yFrom) * Span(t.xFrom, t.xTo) + (x - t.xFrom)
    ensures k < |TilePoints(t, f)| && TilePoints(t, f)[k] == TileDataPoint(x, y, f(x, y))
  {
    var w, h, i, j := Span(t.xFrom, t.xTo), Span(t.yFrom, t.yTo), x - t.xFrom, y - t.yFrom;
    k := j * w + i;
    RowMajorEntry(w, h, TileGrid(t, f), i, j);
    assert TileGrid(t, f)(i, j) == TileDataPoint(x, y, f(x, y));
  }

  /** The points come in strict row-major order: by row, then by column. */
  lemma {:induction false} TilePointsOrdered(t: Tile, f: (nat, nat) -> Color, k1: nat, k2: nat)
    requires k1 < k2 < |TilePoints(t, f)|
    ensures var p1, p2 := TilePoints(t, f)[k1], TilePoints(t, f)[k2];
            p1.y < p2.y || (p1.y == p2.y && p1.x < p2.x)
  {
    TilePointAt(t, f, k1);
    TilePointAt(t, f, k2);
    FlatIndexOrder(Span(t.xFrom, t.xTo), k1, k2);
  }

  /** The worker's loop body for one tile: the nested loops push one point per pixel,
      then the points are wrapped with the tile's idx. */
  method ComputeTile(t: Tile, f: (nat, nat) -> Color) returns (data: TileData)
    ensures data == TileResult(t, f)
  {
    var w := Span(t.xFrom, t.xTo);
    ghost var g := TileGrid(t, f);
    var pixels: seq<TileDataPoint> := [];
    var y := t.yFrom;
    while y < t.yTo
      invariant t.yFrom <= y && y - t.yFrom <= Span(t.yFrom, t.yTo)
      invariant y < t.yTo || y - t.yFrom == Span(t.yFrom, t.yTo)
      invariant pixels == RowMajor(w, y - t.yFrom, g)
    {
      var x := t.xFrom;
      while x < t.xTo
        invariant t.xFrom <= x && x - t.xFrom <= w
        invariant x < t.xTo || x - t.xFrom == w
        invariant pixels == RowMajor(w, y - t.yFrom, g) + Row(w, y - t.yFrom, g)[..x - t.xFrom]
      {
        assert Row(w, y - t.yFrom, g)[..x + 1 - t.xFrom]
            == Row(w, y - t.yFrom, g)[..x - t.xFrom] + [TileDataPoint(x, y, f(x, y))];
        pixels := pixels + [TileDataPoint(x, y, f(x, y))];
        x := x + 1;
      }
      assert Row(w, y - t.yFrom, g)[..w] == Row(w, y - t.yFrom, g);
      y := y + 1;
    }
    data := TileData(t.idx, pixels);
  }

  /** Where a worker is in its `while peek { next; compute; send }` loop. */
  datatype Phase = AtGuard | AtClaim | Holding(tile: Tile) | Finished

  /** Termination weights of a phase; `dry` tells whether the cursor has run dry. */
  function Weight(p: Phase, dry: bool): nat
  {
    match p
    case AtGuard => 1
    case AtClaim => if dry then 2 else 0
    case Holding(_) => if dry then 3 else 2
    case Finished => 0
  }

  function Potential(phases: seq<Phase>, dry: bool): nat
  {
    if phases == [] then 0 else Potential(phases[..|phases| - 1], dry) + Weight(phases[|phases| - 1], dry)
  }

  function HeldBy(p: Phase): multiset<Tile>
  {
    if p.Holding? then multiset{p.tile} else multiset{}
  }

  /** The tiles that workers have taken but not yet sent. */
  function Held(phases: seq<Phase>): multiset<Tile>
  {
    if phases == [] then multiset{} else HeldBy(phases[0]) + Held(phases[1..])
  }

  function Sum(s: seq<nat>): nat
  {
    if s == [] then 0 else Sum(s[..|s| - 1]) + s[|s| - 1]
  }

  /** The first worker whose phase is not `finished`; shared by every worker pool. */
  function FirstUnfinished<P(==)>(phases: seq<P>, finished: P): (r: Option<nat>)
    ensures r.Some? ==> r.value < |phases| && phases[r.value] != finished
    ensures r.None? ==> forall w :: 0 <= w < |phases| ==> phases[w] == finished
  {
    if phases == [] then None
    else if phases[0] != finished then Some(0)
    else match FirstUnfinished(phases[1..], finished)
      case None => None
      case Some(w) => Some(w + 1)
  }

  lemma {:induction false} PotentialUpdate(phases: seq<Phase>, w: nat, p: Phase, dry: bool)
    requires w < |phases|
    ensures Potential(phases[w := p], dry) + Weight(phases[w], dry) == Potential(phases, dry) + Weight(p, dry)
    decreases |phases|
  {
    var n := |phases| - 1;
    if w < n {
      PotentialUpdate(phases[..n], w, p, dry);
      assert phases[w := p][..n] == phases[..n][w := p];
    } else {
      assert phases[w := p][..n] == phases[..n];
    }
  }

  /** Adding the same z in front of both sides of a + x == b + y keeps them equal. */
  lemma {:induction false} SwapSummand(a: multiset<Tile>, b: multiset<Tile>, x: multiset<Tile>, y: multiset<Tile>, z: multiset<Tile>)
    requires a + x == b + y
    ensures (z + a) + x == (z + b) + y
  {
    forall e ensures ((z + a) + x)[e] == ((z + b) + y)[e] {
      assert (a + x)[e] == (b + y)[e];
    }
  }

  /** Exchanging the first and the last summand. */
  lemma {:induction false} SwapLast(a: multiset<Tile>, x: multiset<Tile>, y: multiset<Tile>)
    ensures (x + a) + y == (y + a) + x
  {
    forall e ensures ((x + a) + y)[e] == ((y + a) + x)[e] {
    }
  }

  lemma {:induction false} HeldUpdate(phases: seq<Phase>, w: nat, p: Phase)
    requires w < |phases|
    ensures Held(phases[w := p]) + HeldBy(phases[w]) == Held(phases) + HeldBy(p)
    decreases |phases|
  {
    if w == 0 {
      HeldUpdateHead(phases, p);
    } else {
      HeldUpdate(phases[1..], w - 1, p);
      HeldUpdateTail(phases, w, p);
    }
  }

  lemma {:induction false} HeldUpdateHead(phases: seq<Phase>, p: Phase)
    requires 0 < |phases|
    ensures Held(phases[0 := p]) + HeldBy(phases[0]) == Held(phases) + HeldBy(p)
  {
    var q := phases[0 := p];
    assert q[1..] == phases[1..];
    SwapLast(Held(phases[1..]), HeldBy(p), HeldBy(phases[0]));
  }

  lemma {:induction false} HeldUpdateTail(phases: seq<Phase>, w: nat, p: Phase)
    requires 0 < w < |phases|
    requires Held(phases[1..][w - 1 := p]) + HeldBy(phases[w]) == Held(phases[1..]) + HeldBy(p)
    ensures Held(phases[w := p]) + HeldBy(phases[w]) == Held(phases) + HeldBy(p)
  {
    var q := phases[w := p];
    assert q[1..] == phases[1..][w - 1 := p];
    assert q[0] == phases[0];
    SwapSummand(Held(q[1..]), Held(phases[1..]), HeldBy(phases[w]), HeldBy(p), HeldBy(phases[0]));
  }

  lemma {:induction false} HeldAllFinished(phases: seq<Phase>)
    requires forall w :: 0 <= w < |phases| ==> phases[w] == Finished
    ensures Held(phases) == multiset{}
    decreases |phases|
  {
    if phases != [] {
      HeldAllFinished(phases[1..]);
    }
  }

  lemma {:induction false} SumIncrement(s: seq<nat>, w: nat)
    requires w < |s|
    ensures Sum(s[w := s[w] + 1]) == Sum(s) + 1
    decreases |s|
  {
    var n := |s| - 1;
    if w < n {
      SumIncrement(s[..n], w);
      assert s[w := s[w] + 1][..n] == s[..n][w := s[w] + 1];
    } else {
      assert s[w := s[w] + 1][..n] == s[..n];
    }
  }

  lemma {:induction false} SumZeros(n: nat)
    ensures Sum(seq(n, _ => 0)) == 0
  {
    if n > 0 {
      assert seq(n, _ => 0)[..n - 1] == seq(n - 1, _ => 0);
      SumZeros(n - 1);
    }
  }

  lemma {:induction false} AllAtGuard(n: nat)
    ensures Held(seq(n, _ => AtGuard)) == multiset{}
  {
    if n > 0 {
      assert seq(n, _ => AtGuard)[1..] == seq(n - 1, _ => AtGuard);
      AllAtGuard(n - 1);
    }
  }

  predicate NoneFinished(phases: seq<Phase>)
  {
    forall w :: 0 <= w < |phases| ==> phases[w] != Finished
  }

  lemma {:induction false} NoneFinishedUpdate(phases: seq<Phase>, w: nat, p: Phase)
    requires w < |phases| && p != Finished
    ensures NoneFinished(phases) ==> NoneFinished(phases[w := p])
  {
  }

  /** Moving a worker between phases that hold nothing leaves the held tiles alone. */
  lemma {:induction false} HeldUnchanged(phases: seq<Phase>, w: nat, p: Phase)
    requires w < |phases| && !phases[w].Holding? && !p.Holding?
    ensures Held(phases[w := p]) == Held(phases)
  {
    HeldUpdate(phases, w, p);
    assert HeldBy(phases[w]) == multiset{} == HeldBy(p);
    assert Held(phases[w := p]) + multiset{} == Held(phases[w := p]);
    assert Held(phases) + multiset{} == Held(phases);
  }

  /** Taking a tile moves it into the held multiset and into the claimed one. */
  lemma {:induction false} TakeBalances(done: multiset<Tile>, held: multiset<Tile>, held': multiset<Tile>,
                     claimed: multiset<Tile>, t: Tile)
    requires done + held == claimed && held' + multiset{} == held + multiset{t}
    ensures done + held' == claimed + multiset{t}
  {
    assert forall x :: held'[x] == held[x] + multiset{t}[x] by {
      forall x ensures held'[x] == held[x] + multiset{t}[x] {
        assert (held' + multiset{})[x] == (held + multiset{t})[x];
      }
    }
    assert forall x :: (done + held')[x] == (claimed + multiset{t})[x];
  }

  /** Sending (or losing) a tile moves it from the held multiset to the done ones. */
  lemma {:induction false} SendBalances(into: seq<Tile>, other: seq<Tile>, held: multiset<Tile>, held': multiset<Tile>,
                     claimed: multiset<Tile>, t: Tile)
    requires multiset(into) + multiset(other) + held == claimed
    requires held' + multiset{t} == held + multiset{}
    ensures multiset(into + [t]) + multiset(other) + held' == claimed
    ensures multiset(other) + multiset(into + [t]) + held' == claimed
  {
    var a, b := multiset(into), multiset(other);
    assert multiset(into + [t]) == a + multiset{t};
    assert forall x :: held'[x] + multiset{t}[x] == held[x] by {
      forall x ensures held'[x] + multiset{t}[x] == held[x] {
        assert (held' + multiset{t})[x] == (held + multiset{})[x];
      }
    }
    assert forall x :: a[x] + b[x] + held[x] == claimed[x] by {
      forall x ensures a[x] + b[x] + held[x] == claimed[x] {
        assert (a + b + held)[x] == claimed[x];
      }
    }
    assert forall x :: (a + multiset{t} + b + held')[x] == claimed[x];
    assert forall x :: (b + (a + multiset{t}) + held')[x] == claimed[x];
  }

  lemma {:induction false} ResultsAppend(tiles: seq<Tile>, t: Tile, f: (nat, nat) -> Color)
    ensures Results(tiles + [t], f) == Results(tiles, f) + [TileResult(t, f)]
  {
  }

  lemma {:induction false} RunsDryWhenEmpty(c: Cursor)
    requires Progressing(c)
    ensures Step(c).None? <==> TilesFrom(c) == []
  {
  }

  /** What holds between the steps of the pool: the tiles taken so far followed by the
      cursor's remaining tiles are the cursor's original sequence; the counts add up to
      the tiles taken; every taken tile is held by a worker, sent or lost; each sent or
      lost message is the tile's result; and no worker has finished while tiles remain. */
  ghost predicate PoolInv(c: Cursor, start: Cursor, phases: seq<Phase>, counts: seq<nat>,
                          claimed: seq<Tile>, sentTiles: seq<Tile>, lostTiles: seq<Tile>,
                          sent: seq<TileData>, lost: seq<TileData>, sendFails: set<nat>,
                          f: (nat, nat) -> Color)
  {
    |counts| == |phases| && Progressing(c) && Progressing(start) &&
    claimed + TilesFrom(c) == TilesFrom(start) &&
    Sum(counts) == |claimed| &&
    multiset(sentTiles) + multiset(lostTiles) + Held(phases) == multiset(claimed) &&
    sent == Results(sentTiles, f) && lost == Results(lostTiles, f) &&
    (forall t :: t in sentTiles ==> t.idx !in sendFails) &&
    (forall t :: t in lostTiles ==> t.idx in sendFails) &&
    (sendFails == {} ==> lostTiles == []) &&
    (Step(c).Some? ==> NoneFinished(phases))
  }

  /** A worker at the loop guard peeks at a copy of the cursor: with a tile to come it
      goes on to claim, otherwise it finishes. */
  method GuardStep(cursor: CanvasTile, w: nat, phases: seq<Phase>, ghost start: Cursor, ghost counts: seq<nat>,
                   ghost claimed: seq<Tile>, ghost sentTiles: seq<Tile>, ghost lostTiles: seq<Tile>,
                   ghost sent: seq<TileData>, ghost lost: seq<TileData>, ghost sendFails: set<nat>,
                   ghost f: (nat, nat) -> Color)
    returns (phases': seq<Phase>)
    requires w < |phases| && phases[w] == AtGuard
    requires PoolInv(cursor.State(), start, phases, counts, claimed, sentTiles, lostTiles, sent, lost, sendFails, f)
    ensures |phases'| == |phases|
    ensures PoolInv(cursor.State(), start, phases', counts, claimed, sentTiles, lostTiles, sent, lost, sendFails, f)
    ensures Potential(phases', Step(cursor.State()).None?) < Potential(phases, Step(cursor.State()).None?)
  {
    var more := cursor.HasNext();
    var next := if more then AtClaim else Finished;
    HeldUnchanged(phases, w, next);
    PotentialUpdate(phases, w, next, !more);
    if more {
      NoneFinishedUpdate(phases, w, next);
    }
    phases' := phases[w := next];
  }

  /** A worker at the claim calls `next` under the lock: with a tile it holds the tile
      and counts it; on None (another worker took the last tile) it returns to the guard. */
  method ClaimStep(cursor: CanvasTile, w: nat, phases: seq<Phase>, counts: seq<nat>, ghost start: Cursor,
                   ghost claimed: seq<Tile>, ghost sentTiles: seq<Tile>, ghost lostTiles: seq<Tile>,
                   ghost sent: seq<TileData>, ghost lost: seq<TileData>, ghost sendFails: set<nat>,
                   ghost f: (nat, nat) -> Color)
    returns (phases': seq<Phase>, counts': seq<nat>, ghost claimed': seq<Tile>)
    requires w < |phases| && phases[w] == AtClaim
    requires PoolInv(cursor.State(), start, phases, counts, claimed, sentTiles, lostTiles, sent, lost, sendFails, f)
    modifies cursor
    ensures |phases'| == |phases|
    ensures PoolInv(cursor.State(), start, phases', counts', claimed', sentTiles, lostTiles, sent, lost, sendFails, f)
    ensures |TilesFrom(cursor.State())| < |TilesFrom(old(cursor.State()))| ||
            (cursor.State() == old(cursor.State()) &&
             Potential(phases', Step(cursor.State()).None?) < Potential(phases, Step(cursor.State()).None?))
  {
    ghost var before := cursor.State();
    var candidate := cursor.Next();
    match candidate {
      case Some(tile) =>
        TakeKeepsInv(before, cursor.State(), tile, w, phases, start, counts, claimed, sentTiles, lostTiles,
                     sent, lost, sendFails, f);
        phases' := phases[w := Holding(tile)];
        counts' := counts[w := counts[w] + 1];
        claimed' := claimed + [tile];
      case None =>
        HeldUnchanged(phases, w, AtGuard);
        PotentialUpdate(phases, w, AtGuard, true);
        NoneFinishedUpdate(phases, w, AtGuard);
        phases', counts', claimed' := phases[w := AtGuard], counts, claimed;
    }
  }

  /** A worker holding a tile computes its points and sends them; a failed send is only
      logged and the tile is not retried. Either way the worker returns to the guard. */
  method SendStep(w: nat, phases: seq<Phase>, sent: seq<TileData>, lost: seq<TileData>, ghost c: Cursor,
                  ghost start: Cursor, ghost counts: seq<nat>, ghost claimed: seq<Tile>,
                  ghost sentTiles: seq<Tile>, ghost lostTiles: seq<Tile>, sendFails: set<nat>,
                  f: (nat, nat) -> Color)
    returns (phases': seq<Phase>, sent': seq<TileData>, lost': seq<TileData>,
             ghost sentTiles': seq<Tile>, ghost lostTiles': seq<Tile>)
    requires w < |phases| && phases[w].Holding?
    requires PoolInv(c, start, phases, counts, claimed, sentTiles, lostTiles, sent, lost, sendFails, f)
    ensures |phases'| == |phases|
    ensures PoolInv(c, start, phases', counts, claimed, sentTiles', lostTiles', sent', lost', sendFails, f)
    ensures Potential(phases', Step(c).None?) < Potential(phases, Step(c).None?)
  {
    var tile := phases[w].tile;
    var data := ComputeTile(tile, f);
    HeldUpdate(phases, w, AtGuard);
    assert HeldBy(phases[w]) == multiset{tile} && HeldBy(AtGuard) == multiset{};
    if tile.idx in sendFails {
      ResultsAppend(lostTiles, tile, f);
      assert multiset(lostTiles) + multiset(sentTiles) == multiset(sentTiles) + multiset(lostTiles);
      SendBalances(lostTiles, sentTiles, Held(phases), Held(phases[w := AtGuard]), multiset(claimed), tile);
      sent', lost' := sent, lost + [data];
      sentTiles', lostTiles' := sentTiles, lostTiles + [tile];
    } else {
      ResultsAppend(sentTiles, tile, f);
      SendBalances(sentTiles, lostTiles, Held(phases), Held(phases[w := AtGuard]), multiset(claimed), tile);
      sent', lost' := sent + [data], lost;
      sentTiles', lostTiles' := sentTiles + [tile], lostTiles;
    }
    PotentialUpdate(phases, w, AtGuard, Step(c).None?);
    NoneFinishedUpdate(phases, w, AtGuard);
    phases' := phases[w := AtGuard];
  }

  lemma {:induction false} TakeKeepsInv(c: Cursor, c': Cursor, tile: Tile, w: nat, phases: seq<Phase>, start: Cursor,
                     counts: seq<nat>, claimed: seq<Tile>, sentTiles: seq<Tile>, lostTiles: seq<Tile>,
                     sent: seq<TileData>, lost: seq<TileData>, sendFails: set<nat>, f: (nat, nat) -> Color)
    requires w < |phases| && phases[w] == AtClaim && Step(c) == Some((tile, c'))
    requires PoolInv(c, start, phases, counts, claimed, sentTiles, lostTiles, sent, lost, sendFails, f)
    ensures PoolInv(c', start, phases[w := Holding(tile)], counts[w := counts[w] + 1], claimed + [tile],
                    sentTiles, lostTiles, sent, lost, sendFails, f)
    ensures |TilesFrom(c')| < |TilesFrom(c)|
  {
    TakeAdvances(c, c', tile, claimed, start);
    SumIncrement(counts, w);
    TakeHolds(phases, w, tile, claimed, multiset(sentTiles) + multiset(lostTiles));
    NoneFinishedUpdate(phases, w, Holding(tile));
  }

  /** Taking a tile moves it from the cursor's remaining tiles to the claimed ones. */
  lemma {:induction false} TakeAdvances(c: Cursor, c': Cursor, tile: Tile, claimed: seq<Tile>, start: Cursor)
    requires Progressing(c) && Progressing(start) && Step(c) == Some((tile, c'))
    requires claimed + TilesFrom(c) == TilesFrom(start)
    ensures Progressing(c') && claimed + [tile] + TilesFrom(c') == TilesFrom(start)
    ensures |TilesFrom(c')| < |TilesFrom(c)|
  {
    StepProgresses(c);
    assert TilesFrom(c) == [tile] + TilesFrom(c');
    assert claimed + [tile] + TilesFrom(c') == claimed + TilesFrom(c);
  }

  /** The claiming worker now holds the tile it claimed. */
  lemma {:induction false} TakeHolds(phases: seq<Phase>, w: nat, tile: Tile, claimed: seq<Tile>, done: multiset<Tile>)
    requires w < |phases| && phases[w] == AtClaim && done + Held(phases) == multiset(claimed)
    ensures done + Held(phases[w := Holding(tile)]) == multiset(claimed + [tile])
  {
    HeldUpdate(phases, w, Holding(tile));
    assert multiset(claimed + [tile]) == multiset(claimed) + multiset{tile};
    assert HeldBy(phases[w]) == multiset{} && HeldBy(Holding(tile)) == multiset{tile};
    TakeBalances(done, Held(phases), Held(phases[w := Holding(tile)]), multiset(claimed), tile);
  }

  lemma {:induction false} PoolInvInit(start: Cursor, workers: nat, sendFails: set<nat>, f: (nat, nat) -> Color)
    requires Progressing(start)
    ensures PoolInv(start, start, seq(workers, _ => AtGuard), seq(workers, _ => 0), [], [], [], [], [],
                    sendFails, f)
  {
    SumZeros(workers);
    AllAtGuard(workers);
    assert NoneFinished(seq(workers, _ => AtGuard));
  }

  lemma {:induction false} PoolInvDone(c: Cursor, start: Cursor, phases: seq<Phase>, counts: seq<nat>,
                    claimed: seq<Tile>, sentTiles: seq<Tile>, lostTiles: seq<Tile>,
                    sent: seq<TileData>, lost: seq<TileData>, sendFails: set<nat>, f: (nat, nat) -> Color)
    requires PoolInv(c, start, phases, counts, claimed, sentTiles, lostTiles, sent, lost, sendFails, f)
    requires forall w :: 0 <= w < |phases| ==> phases[w] == Finished
    ensures |phases| > 0 ==> claimed == TilesFrom(start) && Step(c).None?
    ensures multiset(sentTiles) + multiset(lostTiles) == multiset(claimed)
  {
    HeldAllFinished(phases);
    assert multiset(sentTiles) + multiset(lostTiles) + multiset{} == multiset(sentTiles) + multiset(lostTiles);
    if |phases| > 0 {
      assert phases[0] == Finished;
      RunsDryWhenEmpty(c);
    }
  }

  /** `workers` tile workers share the cursor; at every step the schedule picks the
      worker that moves next (once the schedule is used up, the first unfinished one
      does). Whatever the interleaving, the tiles taken are exactly the cursor's
      sequence, each taken once; the per-worker counts add up to it; and every taken
      tile's message is either sent or lost, the lost ones being those whose send failed. */
  method RunTileWorkers(cursor: CanvasTile, workers: nat, schedule: seq<nat>, sendFails: set<nat>,
                        f: (nat, nat) -> Color)
    returns (sent: seq<TileData>, lost: seq<TileData>, counts: seq<nat>,
             ghost claimed: seq<Tile>, ghost sentTiles: seq<Tile>, ghost lostTiles: seq<Tile>)
    requires Progressing(cursor.State())
    modifies cursor
    ensures workers > 0 ==> claimed == TilesFrom(old(cursor.State())) && Step(cursor.State()).None?
    ensures workers == 0 ==> claimed == [] && cursor.State() == old(cursor.State())
    ensures |counts| == workers && Sum(counts) == |claimed|
    ensures multiset(sentTiles) + multiset(lostTiles) == multiset(claimed)
    ensures sent == Results(sentTiles, f) && lost == Results(lostTiles, f)
    ensures forall t :: t in sentTiles ==> t.idx !in sendFails
    ensures forall t :: t in lostTiles ==> t.idx in sendFails
    ensures sendFails == {} ==> lostTiles == []
  {
    ghost var start := cursor.State();
    var phases := seq(workers, _ => AtGuard);
    counts := seq(workers, _ => 0);
    sent, lost := [], [];
    claimed, sentTiles, lostTiles := [], [], [];
    PoolInvInit(start, workers, sendFails, f);
    var i := 0;
    while FirstUnfinished(phases, Finished).Some?
      invariant |phases| == workers
      invariant PoolInv(cursor.State(), start, phases, counts, claimed, sentTiles, lostTiles, sent, lost, sendFails, f)
      invariant workers == 0 ==> cursor.State() == start
      decreases |TilesFrom(cursor.State())|, Potential(phases, Step(cursor.State()).None?),
                if i < |schedule| then |schedule| - i else 0
    {
      var w: nat;
      if i < |schedule| {
        w := schedule[i] % workers;
        i := i + 1;
      } else {
        w := FirstUnfinished(phases, Finished).value;
      }
      phases, counts, sent, lost, claimed, sentTiles, lostTiles :=
        MoveWorker(cursor, w, phases, counts, sent, lost, start, claimed, sentTiles, lostTiles, sendFails, f);
    }
    PoolInvDone(cursor.State(), start, phases, counts, claimed, sentTiles, lostTiles, sent, lost, sendFails, f);
  }

  /** Worker w takes its next step, whichever phase it is in; a finished worker does
      nothing. */
  method MoveWorker(cursor: CanvasTile, w: nat, phases: seq<Phase>, counts: seq<nat>, sent: seq<TileData>,
                    lost: seq<TileData>, ghost start: Cursor, ghost claimed: seq<Tile>, ghost sentTiles: seq<Tile>,
                    ghost lostTiles: seq<Tile>, sendFails: set<nat>, f: (nat, nat) -> Color)
    returns (phases': seq<Phase>, counts': seq<nat>, sent': seq<TileData>, lost': seq<TileData>,
             ghost claimed': seq<Tile>, ghost sentTiles': seq<Tile>, ghost lostTiles': seq<Tile>)
    requires w < |phases|
    requires PoolInv(cursor.State(), start, phases, counts, claimed, sentTiles, lostTiles, sent, lost, sendFails, f)
    modifies cursor
    ensures |phases'| == |phases|
    ensures PoolInv(cursor.State(), start, phases', counts', claimed', sentTiles', lostTiles', sent', lost', sendFails, f)
    ensures phases[w] == Finished ==> cursor.State() == old(cursor.State()) && phases' == phases
    ensures phases[w] != Finished ==>
              |TilesFrom(cursor.State())| < |TilesFrom(old(cursor.State()))| ||
              (cursor.State() == old(cursor.State()) &&
               Potential(phases', Step(cursor.State()).None?) < Potential(phases, Step(cursor.State()).None?))
  {
    phases', counts', sent', lost', claimed', sentTiles', lostTiles' :=
      phases, counts, sent, lost, claimed, sentTiles, lostTiles;
    match phases[w] {
      case AtGuard =>
        phases' := GuardStep(cursor, w, phases, start, counts, claimed, sentTiles, lostTiles, sent, lost, sendFails, f);
      case AtClaim =>
        phases', counts', claimed' := ClaimStep(cursor, w, phases, counts, start, claimed, sentTiles, lostTiles,
                                                sent, lost, sendFails, f);
      case Holding(_) =>
        phases', sent', lost', sentTiles', lostTiles' :=
          SendStep(w, phases, sent, lost, cursor.State(), start, counts, claimed, sentTiles, lostTiles, sendFails, f);
      case Finished =>
    }
  }

  /** The colour table a colour count selects: `color16()` for 16 and `color256()`
      for 256 (both tables are parameters); any other count has none. */
  function SelectPalette(colors: nat, palette16: seq<Color>, palette256: seq<Color>): (r: Result<seq<Color>>)
    ensures r.Ok? <==> colors == 16 || colors == 256
    ensures colors == 16 ==> r == Ok(palette16)
    ensures colors == 256 ==> r == Ok(palette256)
  {
    match colors
    case 16 => Ok(palette16)
    case 256 => Ok(palette256)
    case _ => Panic("number of colors not supported")
  }

  /** `calc_multi_threaded_crossbeam_tiles` with `cores` workers: builds the cursor
      (a zero tile count divides by zero), selects the palette inside the spawn loop
      (so an unsupported colour count panics before the first worker starts, and not
      at all without workers), then runs the workers. The messages sent and lost
      together are the results of all the cursor's tiles, each exactly once. */
  method CalcMultiThreadedCrossbeamTiles(width: nat, height: nat, colors: nat, xTiles: nat, yTiles: nat,
                                         cores: nat, palette16: seq<Color>, palette256: seq<Color>,
                                         kernel: Kernel, schedule: seq<nat>, sendFails: set<nat>)
    returns (r: Result<(seq<TileData>, seq<TileData>, seq<nat>)>,
             ghost sentTiles: seq<Tile>, ghost lostTiles: seq<Tile>)
    requires xTiles > 0 && yTiles > 0 ==> Progressing(Tiles(width, height, xTiles, yTiles))
    ensures r.Panic? <==> xTiles == 0 || yTiles == 0 || (cores > 0 && colors != 16 && colors != 256)
    ensures r.Ok? ==>
              xTiles > 0 && yTiles > 0 &&
              var (sent, lost, counts) := r.value;
              var all := if cores > 0 then TilesFrom(Tiles(width, height, xTiles, yTiles)) else [];
              |counts| == cores && Sum(counts) == |all| &&
              multiset(sentTiles) + multiset(lostTiles) == multiset(all) &&
              (cores > 0 ==>
                 SelectPalette(colors, palette16, palette256).Ok? &&
                 var f := Bind(kernel, SelectPalette(colors, palette16, palette256).value);
                 sent == Results(sentTiles, f) && lost == Results(lostTiles, f)) &&
              (cores == 0 ==> sent == [] && lost == []) &&
              (forall t :: t in sentTiles ==> t.idx !in sendFails) &&
              (forall t :: t in lostTiles ==> t.idx in sendFails) &&
              (sendFails == {} ==> lostTiles == [])
  {
    sentTiles, lostTiles := [], [];
    if xTiles == 0 || yTiles == 0 {
      return Panic("attempt to divide by zero"), sentTiles, lostTiles;
    }
    var cursor := new CanvasTile(width, height, xTiles, yTiles);
    var palette: seq<Color> := [];
    if cores > 0 {
      var selected := SelectPalette(colors, palette16, palette256);
      if selected.Panic? {
        return Panic(selected.reason), sentTiles, lostTiles;
      }
      palette := selected.value;
    }
    var sent, lost, counts;
    ghost var claimed;
    sent, lost, counts, claimed, sentTiles, lostTiles :=
      RunTileWorkers(cursor, cores, schedule, sendFails, Bind(kernel, palette));
    if cores == 0 {
      assert multiset(sentTiles) + multiset(lostTiles) == multiset{};
      assert sentTiles == [] && lostTiles == [];
    }
    r := Ok((sent, lost, counts));
  }
}

/** The row-claim renderers: `calc_multi_threaded`, its rational twin and the brownbag
    `multi_threaded`. The workers share a row counter `y_global` behind one mutex and
    the width * height buffer behind another, and each loops
    `while y_global < height { claim a row; if y < height { compute it; copy it in }; count }`.
    Threads are replaced by a scheduler that interleaves the workers' steps in any order
    a schedule dictates. */
module RowClaim {
  import opened Wrappers
  import opened Colors
  import opened Canvas
  import TileWorker
  import Collector
  import Ppm
  import Palette

  /** The shared `y_global` counter with the height it counts up to. */
  class RowCounter {
    var yGlobal: nat
    const height: nat

    constructor (height: nat)
      ensures this.height == height && yGlobal == 0
    {
      this.height := height;
      yGlobal := 0;
    }

    /** The loop guard `*y_global.lock().unwrap() < height`. */
    method Unclaimed() returns (more: bool)
      ensures more <==> yGlobal < height
    {
      more := yGlobal < height;
    }

    /** The locked claim: while rows remain, hand out the current row and advance;
        otherwise hand out nothing and change nothing. */
    method Claim() returns (y: Option<nat>)
      modifies this
      ensures old(yGlobal) < height ==> y == Some(old(yGlobal)) && yGlobal == old(yGlobal) + 1
      ensures old(yGlobal) >= height ==> y.None? && yGlobal == old(yGlobal)
    {
      if yGlobal < height {
        y := Some(yGlobal);
        yGlobal := yGlobal + 1;
      } else {
        y := None;
      }
    }
  }

  /** The buffer after row y has been copied in: cells y * width .. y * width + width - 1
      hold `row`, every other cell is as before. */
  function Splice(pixels: seq<Color>, width: nat, y: nat, row: seq<Color>): (r: seq<Color>)
    requires |row| == width && y * width + width <= |pixels|
    ensures |r| == |pixels|
  {
    pixels[..y * width] + row + pixels[y * width + width..]
  }

  /** Row y of the buffer holds the kernel's colours for that row. */
  ghost predicate RowDone(pixels: seq<Color>, width: nat, y: nat, f: (nat, nat) -> Color)
  {
    y * width + width <= |pixels| && pixels[y * width..y * width + width] == Row(width, y, f)
  }

  /** The inner `for x in 0..width` loop filling the worker's row buffer
      (`pixels_thread`, or the brownbag `row` vector). */
  method ComputeRow(width: nat, y: nat, f: (nat, nat) -> Color) returns (row: seq<Color>)
    ensures row == Row(width, y, f)
  {
    var buf := new Color[width](_ => Black);
    for x := 0 to width
      invariant forall i :: 0 <= i < x ==> buf[i] == f(i, y)
    {
      buf[x] := f(x, y);
    }
    row := buf[..];
  }

  /** The locked copy `for i in 0..width { p[y * width + i] = row[i] }`. */
  method WriteRow(pixels: array<Color>, width: nat, y: nat, row: seq<Color>)
    requires |row| == width && y * width + width <= pixels.Length
    modifies pixels
    ensures pixels[..] == Splice(old(pixels[..]), width, y, row)
  {
    var start := y * width;
    for i := 0 to width
      invariant pixels[..] == old(pixels[..])[..start] + row[..i] + old(pixels[..])[start + i..]
    {
      pixels[start + i] := row[i];
      assert row[..i + 1] == row[..i] + [row[i]];
    }
    assert row[..width] == row;
  }

  /** Copying in row y completes that row. */
  lemma {:induction false} SpliceCompletes(pixels: seq<Color>, width: nat, y: nat, f: (nat, nat) -> Color)
    requires y * width + width <= |pixels|
    ensures RowDone(Splice(pixels, width, y, Row(width, y, f)), width, y, f)
  {
    var r := Splice(pixels, width, y, Row(width, y, f));
    assert r[y * width..y * width + width] == Row(width, y, f);
  }

  /** Copying in row y leaves every other row as it was. */
  lemma {:induction false} SpliceKeepsRow(pixels: seq<Color>, width: nat, y: nat, row: seq<Color>, y': nat)
    requires |row| == width && y * width + width <= |pixels| && y' * width + width <= |pixels| && y' != y
    ensures Splice(pixels, width, y, row)[y' * width..y' * width + width] ==
            pixels[y' * width..y' * width + width]
  {
    RowsApart(width, y, y');
    OutsideUnchanged(pixels, y * width, row, y' * width, width);
  }

  /** Two different rows occupy disjoint ranges of the buffer. */
  lemma {:induction false} RowsApart(width: nat, y: nat, y': nat)
    requires y' != y
    ensures y' * width + width <= y * width || y * width + width <= y' * width
  {
    if y' < y {
      MulLeMonotone(y' + 1, y, width);
    } else {
      MulLeMonotone(y + 1, y', width);
    }
  }

  /** Replacing the n cells from a on leaves a disjoint range of n cells from c on alone. */
  lemma {:induction false} OutsideUnchanged(pixels: seq<Color>, a: nat, row: seq<Color>, c: nat, n: nat)
    requires |row| == n && a + n <= |pixels| && c + n <= |pixels|
    requires c + n <= a || a + n <= c
    ensures (pixels[..a] + row + pixels[a + n..])[c..c + n] == pixels[c..c + n]
  {
    var r := pixels[..a] + row + pixels[a + n..];
    assert forall k :: c <= k < c + n ==> r[k] == pixels[k];
  }

  /** A buffer whose first k rows are done starts with the first k rows of the
      row-major layout. */
  lemma {:induction false} RowsDonePrefix(pixels: seq<Color>, width: nat, k: nat, f: (nat, nat) -> Color)
    requires k * width <= |pixels|
    requires forall y :: 0 <= y < k ==> RowDone(pixels, width, y, f)
    ensures pixels[..k * width] == RowMajor(width, k, f)
    decreases k
  {
    if k > 0 {
      var a := (k - 1) * width;
      assert a + width == k * width;
      RowsDonePrefix(pixels, width, k - 1, f);
      assert RowDone(pixels, width, k - 1, f);
      assert pixels[..k * width] == pixels[..a] + pixels[a..a + width];
    }
  }

  /** Where a worker is in its `while y_global < height { .. }` loop. */
  datatype Phase = AtGuard | AtClaim | Copying | Finished

  /** Termination weights of a phase; `dry` tells whether every row has been handed out. */
  function Weight(p: Phase, dry: bool): nat
  {
    match p
    case AtGuard => 1
    case AtClaim => if dry then 3 else 0
    case Copying => 2
    case Finished => 0
  }

  function Weights(phases: seq<Phase>, dry: bool): seq<nat>
  {
    seq(|phases|, w requires 0 <= w < |phases| => Weight(phases[w], dry))
  }

  function Potential(phases: seq<Phase>, dry: bool): nat
  {
    TileWorker.Sum(Weights(phases, dry))
  }

  /** 1 for a worker between its claim and its count, else 0. */
  function InPass(phases: seq<Phase>): seq<nat>
  {
    seq(|phases|, w requires 0 <= w < |phases| => if phases[w] == Copying then 1 else 0)
  }

  lemma {:induction false} SumUpdate(s: seq<nat>, w: nat, v: nat)
    requires w < |s|
    ensures TileWorker.Sum(s[w := v]) + s[w] == TileWorker.Sum(s) + v
    decreases |s|
  {
    var n := |s| - 1;
    if w < n {
      SumUpdate(s[..n], w, v);
      assert s[w := v][..n] == s[..n][w := v];
    } else {
      assert s[w := v][..n] == s[..n];
    }
  }

  lemma {:induction false} SumAtMostOnes(s: seq<nat>)
    requires forall w :: 0 <= w < |s| ==> s[w] <= 1
    ensures TileWorker.Sum(s) <= |s|
    decreases |s|
  {
    if s != [] {
      SumAtMostOnes(s[..|s| - 1]);
    }
  }

  lemma {:induction false} ZerosSumZero(s: seq<nat>)
    requires forall w :: 0 <= w < |s| ==> s[w] == 0
    ensures TileWorker.Sum(s) == 0
  {
    assert s == seq(|s|, _ => 0);
    TileWorker.SumZeros(|s|);
  }

  lemma {:induction false} PotentialUpdate(phases: seq<Phase>, w: nat, p: Phase, dry: bool)
    requires w < |phases|
    ensures Potential(phases[w := p], dry) + Weight(phases[w], dry) == Potential(phases, dry) + Weight(p, dry)
  {
    assert Weights(phases[w := p], dry) == Weights(phases, dry)[w := Weight(p, dry)];
    SumUpdate(Weights(phases, dry), w, Weight(p, dry));
  }

  lemma {:induction false} InPassUpdate(phases: seq<Phase>, w: nat, p: Phase)
    requires w < |phases|
    ensures TileWorker.Sum(InPass(phases[w := p])) + (if phases[w] == Copying then 1 else 0) ==
            TileWorker.Sum(InPass(phases)) + (if p == Copying then 1 else 0)
  {
    assert InPass(phases[w := p]) == InPass(phases)[w := if p == Copying then 1 else 0];
    SumUpdate(InPass(phases), w, if p == Copying then 1 else 0);
  }

  /** A row handed out but not yet copied in is owned by a worker in its copy phase
      whose `y_thread` is that row. */
  ghost predicate Owned(owner: map<nat, nat>, phases: seq<Phase>, ys: seq<nat>, y: nat)
    requires |ys| == |phases|
  {
    y in owner && owner[y] < |phases| && phases[owner[y]] == Copying && ys[owner[y]] == y
  }

  /** What holds between the steps of the workers:
      - the counter never passes the height, and the rows handed out are 0 .. yGlobal - 1;
      - a worker about to claim or copy has a `y_thread` below the height;
      - every row handed out is done or owned by the worker that will copy it;
      - the per-worker counts plus the passes under way equal the rows handed out plus
        the failed claims, and each worker fails a claim at most once, after the rows
        ran out;
      - no worker has finished while rows remain. */
  ghost predicate RowInv(yGlobal: nat, height: nat, width: nat, phases: seq<Phase>, ys: seq<nat>,
                         counts: seq<nat>, retries: seq<nat>, owner: map<nat, nat>, claims: seq<nat>,
                         pixels: seq<Color>, f: (nat, nat) -> Color)
  {
    |ys| == |phases| && |counts| == |phases| && |retries| == |phases| &&
    yGlobal <= height && |pixels| == width * height &&
    claims == seq(yGlobal, y => y) &&
    (forall w :: 0 <= w < |phases| ==> ys[w] == 0 || ys[w] < height) &&
    (forall w :: 0 <= w < |phases| && (phases[w] == AtClaim || phases[w] == Copying) ==> ys[w] < height) &&
    (forall y :: 0 <= y < yGlobal ==> RowDone(pixels, width, y, f) || Owned(owner, phases, ys, y)) &&
    TileWorker.Sum(counts) + TileWorker.Sum(InPass(phases)) == yGlobal + TileWorker.Sum(retries) &&
    (forall w :: 0 <= w < |phases| ==> retries[w] <= 1) &&
    (forall w :: 0 <= w < |phases| && retries[w] == 1 ==> yGlobal == height && phases[w] != AtClaim) &&
    (yGlobal < height ==> forall w :: 0 <= w < |phases| ==> phases[w] != Finished)
  }

  /** A worker at the loop guard reads the counter under its lock: with rows left it goes
      on to claim, otherwise it finishes. */
  method GuardStep(counter: RowCounter, w: nat, phases: seq<Phase>, ghost width: nat, ghost ys: seq<nat>,
                   ghost counts: seq<nat>, ghost retries: seq<nat>, ghost owner: map<nat, nat>,
                   ghost claims: seq<nat>, ghost pixels: seq<Color>, ghost f: (nat, nat) -> Color)
    returns (phases': seq<Phase>)
    requires w < |phases| && phases[w] == AtGuard
    requires RowInv(counter.yGlobal, counter.height, width, phases, ys, counts, retries, owner, claims, pixels, f)
    ensures |phases'| == |phases|
    ensures RowInv(counter.yGlobal, counter.height, width, phases', ys, counts, retries, owner, claims, pixels, f)
    ensures Potential(phases', counter.yGlobal == counter.height) < Potential(phases, counter.yGlobal == counter.height)
  {
    var more := counter.Unclaimed();
    var next := if more then AtClaim else Finished;
    PotentialUpdate(phases, w, next, !more);
    InPassUpdate(phases, w, next);
    phases' := phases[w := next];
    assert forall y :: Owned(owner, phases, ys, y) ==> Owned(owner, phases', ys, y);
  }

  /** A worker at the claim takes the lock: with rows left it takes the next row for its
      `y_thread`; otherwise `y_thread` keeps its old value (0 if it never claimed). Either
      way it goes on to compute and copy. */
  method ClaimStep(counter: RowCounter, w: nat, phases: seq<Phase>, ys: seq<nat>,
                   ghost width: nat, ghost counts: seq<nat>, ghost retries: seq<nat>,
                   ghost owner: map<nat, nat>, ghost claims: seq<nat>, ghost pixels: seq<Color>,
                   ghost f: (nat, nat) -> Color)
    returns (phases': seq<Phase>, ys': seq<nat>, ghost retries': seq<nat>, ghost owner': map<nat, nat>,
             ghost claims': seq<nat>)
    requires w < |phases| && phases[w] == AtClaim
    requires RowInv(counter.yGlobal, counter.height, width, phases, ys, counts, retries, owner, claims, pixels, f)
    modifies counter
    ensures |phases'| == |phases|
    ensures RowInv(counter.yGlobal, counter.height, width, phases', ys', counts, retries', owner', claims', pixels, f)
    ensures counter.yGlobal == old(counter.yGlobal) + 1 ||
            (counter.yGlobal == old(counter.yGlobal) == counter.height &&
             Potential(phases', true) < Potential(phases, true))
  {
    var y := counter.Claim();
    phases' := phases[w := Copying];
    InPassUpdate(phases, w, Copying);
    match y {
      case Some(row) =>
        ys' := ys[w := row];
        retries', owner', claims' := retries, owner[row := w], claims + [row];
        assert forall v :: 0 <= v < row && Owned(owner, phases, ys, v) ==> Owned(owner', phases', ys', v);
        assert Owned(owner', phases', ys', row);
      case None =>
        ys' := ys;
        retries', owner', claims' := retries[w := retries[w] + 1], owner, claims;
        TileWorker.SumIncrement(retries, w);
        PotentialUpdate(phases, w, Copying, true);
        assert forall v :: Owned(owner, phases, ys, v) ==> Owned(owner', phases', ys', v);
    }
  }

  /** A worker past its claim computes row `y_thread` (guarded by `y_thread < height`,
      which always holds here), copies it into the shared buffer under the lock, counts
      the pass and returns to the guard. */
  method CopyStep(pixels: array<Color>, w: nat, phases: seq<Phase>, ys: seq<nat>, counts: seq<nat>,
                  width: nat, height: nat, f: (nat, nat) -> Color, ghost yGlobal: nat,
                  ghost retries: seq<nat>, ghost owner: map<nat, nat>, ghost claims: seq<nat>)
    returns (phases': seq<Phase>, counts': seq<nat>, wrote: bool)
    requires w < |phases| && phases[w] == Copying
    requires RowInv(yGlobal, height, width, phases, ys, counts, retries, owner, claims, pixels[..], f)
    modifies pixels
    ensures wrote && ys[w] * width + width <= pixels.Length &&
            pixels[..] == Splice(old(pixels[..]), width, ys[w], Row(width, ys[w], f))
    ensures |phases'| == |phases|
    ensures RowInv(yGlobal, height, width, phases', ys, counts', retries, owner, claims, pixels[..], f)
    ensures Potential(phases', yGlobal == height) < Potential(phases, yGlobal == height)
  {
    ghost var before := pixels[..];
    var y := ys[w];
    wrote := false;
    if y < height {
      MulLeMonotone(y + 1, height, width);
      var row := ComputeRow(width, y, f);
      WriteRow(pixels, width, y, row);
      wrote := true;
    }
    counts' := counts[w := counts[w] + 1];
    TileWorker.SumIncrement(counts, w);
    phases' := phases[w := AtGuard];
    InPassUpdate(phases, w, AtGuard);
    PotentialUpdate(phases, w, AtGuard, yGlobal == height);
    SpliceCompletes(before, width, y, f);
    assert pixels[..] == Splice(before, width, y, Row(width, y, f));
    forall v | 0 <= v < yGlobal
      ensures RowDone(pixels[..], width, v, f) || Owned(owner, phases', ys, v)
    {
      if v != y {
        if RowDone(before, width, v, f) {
          MulLeMonotone(v + 1, height, width);
          SpliceKeepsRow(before, width, y, Row(width, y, f), v);
        } else {
          assert Owned(owner, phases, ys, v);
        }
      }
    }
  }

  lemma {:induction false} RowInvInit(height: nat, width: nat, workers: nat, pixels: seq<Color>, f: (nat, nat) -> Color)
    requires |pixels| == width * height
    ensures RowInv(0, height, width, seq(workers, _ => AtGuard), seq(workers, _ => 0), seq(workers, _ => 0),
                   seq(workers, _ => 0), map[], [], pixels, f)
  {
    ZerosSumZero(seq(workers, _ => 0));
    ZerosSumZero(InPass(seq(workers, _ => AtGuard)));
  }

  lemma {:induction false} RowInvDone(yGlobal: nat, height: nat, width: nat, phases: seq<Phase>, ys: seq<nat>,
                   counts: seq<nat>, retries: seq<nat>, owner: map<nat, nat>, claims: seq<nat>,
                   pixels: seq<Color>, f: (nat, nat) -> Color)
    requires RowInv(yGlobal, height, width, phases, ys, counts, retries, owner, claims, pixels, f)
    requires |phases| > 0 && forall w :: 0 <= w < |phases| ==> phases[w] == Finished
    ensures yGlobal == height && pixels == RowMajor(width, height, f)
    ensures TileWorker.Sum(counts) == height + TileWorker.Sum(retries)
    ensures height <= TileWorker.Sum(counts) <= height + |phases|
  {
    assert phases[0] == Finished;
    ZerosSumZero(InPass(phases));
    SumAtMostOnes(retries);
    assert forall y :: 0 <= y < height ==> !Owned(owner, phases, ys, y);
    RowsDonePrefix(pixels, width, height, f);
    assert pixels[..height * width] == pixels;
  }

  /** `workers` row workers share the counter and the buffer; at every step the schedule
      picks the worker that moves next (once the schedule is used up, the first unfinished
      one does). Whatever the interleaving, the counter hands out rows 0 .. height - 1 in
      turn, each once; the buffer ends up as the row-major layout of the kernel whatever
      it held before; and the per-worker pass counts add up to the height plus the failed
      claims, at most one per worker. */
  method RunRowWorkers(counter: RowCounter, pixels: array<Color>, width: nat, workers: nat,
                       schedule: seq<nat>, f: (nat, nat) -> Color)
    returns (counts: seq<nat>, ghost claims: seq<nat>, ghost retries: seq<nat>)
    requires counter.yGlobal == 0 && pixels.Length == width * counter.height
    modifies counter, pixels
    ensures |counts| == workers && |retries| == workers
    ensures workers > 0 ==> claims == seq(counter.height, y => y) && pixels[..] == RowMajor(width, counter.height, f)
    ensures workers > 0 ==> TileWorker.Sum(counts) == counter.height + TileWorker.Sum(retries)
    ensures workers > 0 ==> counter.height <= TileWorker.Sum(counts) <= counter.height + workers
    ensures forall w :: 0 <= w < workers ==> retries[w] <= 1
    ensures workers == 0 ==> claims == [] && pixels[..] == old(pixels[..]) && counts == []
  {
    var height := counter.height;
    var phases := seq(workers, _ => AtGuard);
    var ys := seq(workers, _ => 0);
    counts := seq(workers, _ => 0);
    retries := seq(workers, _ => 0);
    claims := [];
    ghost var owner: map<nat, nat> := map[];
    RowInvInit(height, width, workers, pixels[..], f);
    var i := 0;
    while TileWorker.FirstUnfinished(phases, Finished).Some?
      invariant |phases| == workers && counter.height == height
      invariant RowInv(counter.yGlobal, height, width, phases, ys, counts, retries, owner, claims, pixels[..], f)
      invariant workers == 0 ==> pixels[..] == old(pixels[..]) && counts == [] && counter.yGlobal == 0
      decreases height - counter.yGlobal, Potential(phases, counter.yGlobal == height),
                if i < |schedule| then |schedule| - i else 0
    {
      var w: nat;
      if i < |schedule| {
        w := schedule[i] % workers;
        i := i + 1;
      } else {
        w := TileWorker.FirstUnfinished(phases, Finished).value;
      }
      match phases[w] {
        case AtGuard =>
          phases := GuardStep(counter, w, phases, width, ys, counts, retries, owner, claims, pixels[..], f);
        case AtClaim =>
          phases, ys, retries, owner, claims :=
            ClaimStep(counter, w, phases, ys, width, counts, retries, owner, claims, pixels[..], f);
        case Copying =>
          var wrote;
          phases, counts, wrote :=
            CopyStep(pixels, w, phases, ys, counts, width, height, f, counter.yGlobal, retries, owner, claims);
        case Finished =>
      }
    }
    if workers > 0 {
      RowInvDone(counter.yGlobal, height, width, phases, ys, counts, retries, owner, claims, pixels[..], f);
    }
  }

  /** The palette a worker of `calc_multi_threaded` captures: the "wild.map" table for
      16 colours and the "neon.map" table for 256, looked up in the palettes read from
      disk; another count panics, and so does a missing table (`unwrap` on None). */
  function RowPalette(colors: nat, palettes: map<string, seq<Color>>): (r: Result<seq<Color>>)
    ensures r.Ok? <==> (colors == 16 && "wild.map" in palettes) || (colors == 256 && "neon.map" in palettes)
    ensures r.Ok? && colors == 16 ==> r.value == palettes["wild.map"]
    ensures r.Ok? && colors == 256 ==> r.value == palettes["neon.map"]
  {
    var name := if colors == 16 then "wild.map" else "neon.map";
    if colors != 16 && colors != 256 then Panic("number of colors not supported")
    else if name !in palettes then Panic("called `Option::unwrap()` on a `None` value")
    else Ok(palettes[name])
  }

  /** `calc_multi_threaded` with `cores` workers: `read_palette()` runs first, for every
      worker count, and panics as `Palette.Palettes` does on the directory `entries`; the
      palette is then chosen inside the spawn loop (so a bad colour count or a missing
      table panics before the first worker starts, and not at all without workers); the
      buffer starts as width * height default colours and the counter at 0. After the
      joins the image carries the requested size and, with at least one worker, exactly
      the single-threaded row-major pixels. */
  method CalcMultiThreaded(width: nat, height: nat, colors: nat, cores: nat,
                           entries: seq<Palette.DirEntry>, kernel: Kernel, schedule: seq<nat>)
    returns (r: Result<(FractalImage, seq<nat>)>)
    ensures r.Panic? <==> Palette.Palettes(entries).Panic? ||
                          (cores > 0 && RowPalette(colors, Palette.Palettes(entries).value).Panic?)
    ensures r.Ok? ==>
              var (image, counts) := r.value;
              image.width == width && image.height == height && |counts| == cores &&
              (cores > 0 ==> image.pixels == RowMajor(width, height, Bind(kernel, RowPalette(colors, Palette.Palettes(entries).value).value)) &&
                             height <= TileWorker.Sum(counts) <= height + cores) &&
              (cores == 0 ==> image.pixels == Collector.Blank(width * height))
  {
    var table := Palette.ReadPalette(entries);
    if table.Panic? {
      return Panic(table.reason);
    }
    var palette: seq<Color> := [];
    if cores > 0 {
      var selected := RowPalette(colors, table.value);
      if selected.Panic? {
        return Panic(selected.reason);
      }
      palette := selected.value;
    }
    var pixels := new Color[width * height](_ => Black);
    var counter := new RowCounter(height);
    var counts;
    ghost var claims, retries;
    counts, claims, retries := RunRowWorkers(counter, pixels, width, cores, schedule, Bind(kernel, palette));
    r := Ok((FractalImage(width, height, pixels[..]), counts));
  }

  /** The brownbag `multi_threaded` with `cores` workers over a width * height buffer of
      BLACK. Its `processed_rows` counts the passes that copy a row, which are all of them
      (`CopyStep` always writes), so the counts are the same as in `calc_multi_threaded`.
      The joined buffer is written out by `write_to_ppm`, which cannot panic on it. */
  method BrownbagMultiThreaded(width: nat, height: nat, cores: nat, f: (nat, nat) -> Color, schedule: seq<nat>)
    returns (image: FractalImage, processed: seq<nat>, writes: seq<Ppm.Write>)
    ensures image.width == width && image.height == height && |processed| == cores
    ensures |image.pixels| == width * height && writes == Ppm.PpmWrites(width, height, image.pixels)
    ensures cores > 0 ==> image.pixels == RowMajor(width, height, f) &&
                          height <= TileWorker.Sum(processed) <= height + cores
    ensures cores == 0 ==> image.pixels == Collector.Blank(width * height)
  {
    var pixels := new Color[width * height](_ => Black);
    var counter := new RowCounter(height);
    ghost var claims, retries;
    processed, claims, retries := RunRowWorkers(counter, pixels, width, cores, schedule, f);
    image := FractalImage(width, height, pixels[..]);
    var saved := Ppm.WriteToPpm(image);
    writes := saved.value;
  }
}

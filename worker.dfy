/**
 * The `CanvasWorker` object: it builds the tile grid, routes the compose operations to the tiles,
 * hands each tile to a worker slot chosen round-robin, and counts the finished tiles.
 */
module Worker {
  import opened Images
  import opened DivMod
  import opened Blend
  import opened Tiles
  import opened ThreadScope
  import opened Progress

  /** The settings `buildTiles`, `groupComposeToTiles` and `render` read, after `setDefaults`. */
  datatype Settings = Settings(width: int, height: int, tileWidth: int, tileHeight: int, compose: seq<ComposeOp>)

  /** What a tile's completion callback receives: the tile, its merged pixels, and the final flag. */
  datatype Finished = Finished(tile: Tile, pixels: seq<int>, isFinal: bool)

  /** A freshly cleared tile buffer: `new Uint8ClampedArray(n)` holds `n` zero bytes. */
  function Zeros(n: nat): (r: seq<int>)
    ensures |r| == n && Bytes(r)
    ensures forall k :: 0 <= k < n ==> r[k] == 0
  {
    seq(n, _ => 0)
  }

  /** A worker made by `operative(CanvasWorker.threadScope)`; only its identity matters here. */
  class Operative {
    constructor () {}
  }

  /** The slot `thread()` uses when the counter reads `index`: the counter restarts at 0 once it reaches `count`. */
  function Slot(index: int, count: int): (slot: int)
    ensures slot == index || slot == 0
    ensures 0 <= index ==> 0 <= slot
    ensures 1 <= count && 0 <= index ==> slot < count
  {
    if index >= count then 0 else index
  }

  /** The counter after `n` calls of `thread()` that start with the counter at `start`. */
  function CounterFrom(start: int, count: int, n: nat): int {
    if n == 0 then start else Slot(CounterFrom(start, count, n - 1), count) + 1
  }

  /** The slots those `n` calls use, in call order. */
  function SlotsFrom(start: int, count: int, n: nat): (r: seq<int>)
    ensures |r| == n
  {
    if n == 0 then [] else SlotsFrom(start, count, n - 1) + [Slot(CounterFrom(start, count, n - 1), count)]
  }

  /** The set of slots those `n` calls use. */
  function SlotSet(start: int, count: int, n: nat): set<int> {
    if n == 0 then {} else SlotSet(start, count, n - 1) + {Slot(CounterFrom(start, count, n - 1), count)}
  }

  /** `SlotSet` holds exactly the slots of `SlotsFrom`. */
  lemma {:induction false} SlotSetMembers(start: int, count: int, n: nat, s: int)
    ensures s in SlotSet(start, count, n) <==> s in SlotsFrom(start, count, n)
  {
    if n > 0 {
      SlotSetMembers(start, count, n - 1, s);
    }
  }

  /** Call `i` uses the slot the counter reads after the first `i` calls. */
  lemma {:induction false} SlotsFromAt(start: int, count: int, n: nat, i: nat)
    requires i < n
    ensures SlotsFrom(start, count, n)[i] == Slot(CounterFrom(start, count, i), count)
  {
    if i < n - 1 {
      SlotsFromAt(start, count, n - 1, i);
    }
  }

  lemma {:induction false} CounterFromMod(count: int, n: nat)
    requires count >= 1
    ensures 0 <= CounterFrom(0, count, n) <= count
    ensures CounterFrom(0, count, n) % count == n % count
  {
    if n > 0 {
      CounterFromMod(count, n - 1);
      var prev := CounterFrom(0, count, n - 1);
      var r := (n - 1) % count;
      assert Slot(prev, count) == r by {
        if prev == count {
          DivModUnique(prev, count, 1, 0);
        } else {
          DivModUnique(prev, count, 0, prev);
        }
      }
      var q := (n - 1) / count;
      Euclid(n - 1, count);
      if r + 1 < count {
        DivModUnique(n, count, q, r + 1);
        DivModUnique(r + 1, count, 0, r + 1);
      } else {
        assert n == (q + 1) * count by {
          assert (q + 1) * count == q * count + count;
        }
        DivModUnique(n, count, q + 1, 0);
        DivModUnique(count, count, 1, 0);
      }
    }
  }

  /** Round robin: with at least one slot, the `n`-th call (from 0) on a fresh object uses slot `n % count`. */
  lemma RoundRobin(count: int, n: nat)
    requires count >= 1
    ensures Slot(CounterFrom(0, count, n), count) == n % count
  {
    CounterFromMod(count, n);
    var c := CounterFrom(0, count, n);
    if c == count {
      DivModUnique(c, count, 1, 0);
    } else {
      DivModUnique(c, count, 0, c);
    }
  }

  /** One more call uses the slot the counter reads, and moves the counter past it. */
  lemma SlotsStep(start: int, count: int, n: nat)
    ensures CounterFrom(start, count, n + 1) == Slot(CounterFrom(start, count, n), count) + 1
    ensures SlotsFrom(start, count, n + 1) == SlotsFrom(start, count, n) + [Slot(CounterFrom(start, count, n), count)]
    ensures SlotSet(start, count, n + 1) == SlotSet(start, count, n) + {Slot(CounterFrom(start, count, n), count)}
  {
  }

  /**
   * Counter `index`, slot trace `trace` and workers `threads` are those after `n` calls of
   * `thread()` with `count` slots that started from counter `start`, trace `trace0` and workers
   * `threads0`: the counter has moved on, the slots used are logged, each slot used has a worker,
   * and the workers that existed before are still there.
   */
  ghost predicate SlotState(index: int, trace: seq<int>, threads: map<int, Operative>, count: int,
                            start: int, trace0: seq<int>, threads0: map<int, Operative>, n: nat)
  {
    && index == CounterFrom(start, count, n)
    && trace == trace0 + SlotsFrom(start, count, n)
    && threads.Keys == threads0.Keys + SlotSet(start, count, n)
    && forall s :: s in threads0 ==> threads[s] == threads0[s]
  }

  /** One more `thread()` call, as `RenderTile` reports it, extends the slot state by one call. */
  lemma SlotsAdvance(index: int, trace: seq<int>, threads: map<int, Operative>,
                     index': int, trace': seq<int>, threads': map<int, Operative>, count: int,
                     start: int, trace0: seq<int>, threads0: map<int, Operative>, n: nat)
    requires SlotState(index, trace, threads, count, start, trace0, threads0, n)
    requires var slot := Slot(index, count);
      && index' == slot + 1 && trace' == trace + [slot]
      && threads'.Keys == threads.Keys + {slot}
      && forall s :: s in threads ==> threads'[s] == threads[s]
    ensures SlotState(index', trace', threads', count, start, trace0, threads0, n + 1)
  {
    SlotsStep(start, count, n);
  }

  /** On a fresh object, the `i`-th of `n` calls uses slot `i % count`. */
  lemma FreshSlots(count: int, n: nat, i: nat)
    requires count >= 1 && i < n
    ensures SlotsFrom(0, count, n)[i] == i % count
  {
    SlotsFromAt(0, count, n, i);
    RoundRobin(count, i);
  }

  /**
   * The first `n` completions of a render of the tiles `ts`: completion `j` carries tile `j`, its
   * merged pixels `merged[j]`, and the final flag exactly for the last tile.
   */
  ghost predicate Completed(finished: seq<Finished>, ts: seq<Tile>, merged: seq<seq<int>>, n: nat)
    requires n <= |ts| && n <= |merged|
  {
    |finished| == n && forall j :: 0 <= j < n ==> finished[j] == Finished(ts[j], merged[j], j == |ts| - 1)
  }

  /** A completion for the next tile extends the completions of the tiles before it. */
  lemma CompletedSnoc(finished: seq<Finished>, ts: seq<Tile>, merged: seq<seq<int>>, n: nat, f: Finished)
    requires n < |ts| && n < |merged| && Completed(finished, ts, merged, n)
    requires f == Finished(ts[n], merged[n], n == |ts| - 1)
    ensures Completed(finished + [f], ts, merged, n + 1)
  {
  }

  /** Every tile is `tw` by `th` pixels and every operation routed to it names an existing image. */
  ghost predicate TilesShaped(tiles: seq<Tile>, raw: seq<RawImage>, tw: int, th: int) {
    forall k :: 0 <= k < |tiles| ==>
      OpsValid(tiles[k].compose, raw) && tiles[k].right == tiles[k].left + tw && tiles[k].bottom == tiles[k].top + th
  }

  /** Routing keeps the tiles' shape, bounds and position. */
  lemma RouteShaped(tiles: seq<Tile>, ops: seq<ComposeOp>, raw: seq<RawImage>, tw: int, th: int)
    requires OpsValid(ops, raw) && TilesShaped(tiles, raw, tw, th)
    ensures TilesShaped(Route(tiles, ops, raw), raw, tw, th)
    ensures forall k :: 0 <= k < |tiles| ==>
      Route(tiles, ops, raw)[k].left == tiles[k].left && Route(tiles, ops, raw)[k].top == tiles[k].top
  {
    forall k | 0 <= k < |tiles|
      ensures OpsValid(Route(tiles, ops, raw)[k].compose, raw)
      ensures Route(tiles, ops, raw)[k].left == tiles[k].left && Route(tiles, ops, raw)[k].top == tiles[k].top
      ensures Route(tiles, ops, raw)[k].right == tiles[k].right && Route(tiles, ops, raw)[k].bottom == tiles[k].bottom
    {
      RouteKeepsTiles(tiles, ops, raw, k);
    }
  }

  /**
   * On tiles that start with no operations, rendering the routed lists gives every tile exactly
   * what drawing the whole compose list into its buffer would give.
   */
  lemma FreshRouting(tiles: seq<Tile>, ops: seq<ComposeOp>, raw: seq<RawImage>, tw: nat, th: nat)
    requires tw > 0 && th > 0 && AllWellFormed(raw) && OpsValid(ops, raw) && TilesShaped(tiles, raw, tw, th)
    requires forall k :: 0 <= k < |tiles| ==> tiles[k].compose == []
    ensures TilesShaped(Route(tiles, ops, raw), raw, tw, th)
    ensures forall k :: 0 <= k < |tiles| ==>
      DrawAll(Zeros(tw * th * 4), Route(tiles, ops, raw)[k].compose, raw, tw, tiles[k].left, tiles[k].top)
        == DrawAll(Zeros(tw * th * 4), ops, raw, tw, tiles[k].left, tiles[k].top)
  {
    RouteShaped(tiles, ops, raw, tw, th);
    forall k | 0 <= k < |tiles|
      ensures DrawAll(Zeros(tw * th * 4), Route(tiles, ops, raw)[k].compose, raw, tw, tiles[k].left, tiles[k].top)
           == DrawAll(Zeros(tw * th * 4), ops, raw, tw, tiles[k].left, tiles[k].top)
    {
      assert Route(tiles, ops, raw)[k].compose == RoutedOps(ops, tiles[k], raw);
      RoutingPreservesComposite(tiles[k], tw, th, Zeros(tw * th * 4), ops, raw);
    }
  }

  class CanvasWorker {
    var settings: Settings
    var raw: seq<RawImage>
    var tiles: seq<Tile>
    var threadCount: int
    var threadIndex: int
    var activeThreads: map<int, Operative>
    /** The slots `thread()` has handed out so far, in call order. */
    ghost var slotTrace: seq<int>

    /**
     * The slot state after `n` calls of `thread()`, starting from counter `start`, slot trace
     * `trace0` and workers `threads0`: the counter has moved on, the slots used are logged, each
     * slot used has a worker, and the workers that existed before are still there.
     */
    ghost predicate SlotsAfter(start: int, trace0: seq<int>, threads0: map<int, Operative>, n: nat)
      reads this
    {
      SlotState(threadIndex, slotTrace, activeThreads, threadCount, start, trace0, threads0, n)
    }

    ghost predicate Valid()
      reads this
    {
      && settings.tileWidth > 0 && settings.tileHeight > 0
      && AllWellFormed(raw) && OpsValid(settings.compose, raw)
      && TilesShaped(tiles, raw, settings.tileWidth, settings.tileHeight)
    }

    /**
     * `new CanvasWorker(...)` once the images are decoded: the settings are taken as given, the
     * worker count is the prototype's 8, and the tile grid is built.
     */
    constructor (settings: Settings, raw: seq<RawImage>)
      requires settings.tileWidth > 0 && settings.tileHeight > 0
      requires AllWellFormed(raw) && OpsValid(settings.compose, raw)
      ensures Valid()
      ensures this.settings == settings && this.raw == raw
      ensures tiles == Grid(settings.width, settings.height, settings.tileWidth, settings.tileHeight, 0)
      ensures threadCount == 8 && threadIndex == 0 && activeThreads == map[] && slotTrace == []
    {
      this.settings := settings;
      this.raw := raw;
      tiles := [];
      threadCount := 8;
      threadIndex := 0;
      activeThreads := map[];
      slotTrace := [];
      new;
      BuildTiles();
      forall k | 0 <= k < |tiles|
        ensures OpsValid(tiles[k].compose, raw)
        ensures tiles[k].right == tiles[k].left + settings.tileWidth
        ensures tiles[k].bottom == tiles[k].top + settings.tileHeight
      {
        GridTile(settings.width, settings.height, settings.tileWidth, settings.tileHeight, 0, k);
      }
    }

    /**
     * `buildTiles`: rows while `rowIndex <= height / tileHeight`, columns while
     * `columnIndex <= width / tileWidth`, each tile pushed with the next index.
     */
    method BuildTiles()
      requires settings.tileWidth > 0 && settings.tileHeight > 0
      modifies this`tiles
      ensures tiles == old(tiles) + Grid(settings.width, settings.height, settings.tileWidth, settings.tileHeight, |old(tiles)|)
    {
      var w, h := settings.tileWidth, settings.tileHeight;
      ghost var base := |tiles|;
      ghost var cols := GridCount(settings.width, w);
      ghost var rows := GridCount(settings.height, h);
      var rowIndex := 0;
      while rowIndex * h <= settings.height
        invariant 0 <= rowIndex <= rows
        invariant cols > 0 ==> tiles == old(tiles) + GridPrefix(w, h, cols, base, rowIndex * cols)
        invariant cols == 0 ==> tiles == old(tiles)
        decreases rows - rowIndex
      {
        GridCountGuard(settings.height, h, rowIndex);
        var columnIndex := 0;
        while columnIndex * w <= settings.width
          invariant 0 <= columnIndex <= cols
          invariant cols > 0 ==> tiles == old(tiles) + GridPrefix(w, h, cols, base, rowIndex * cols + columnIndex)
          invariant cols == 0 ==> tiles == old(tiles)
          decreases cols - columnIndex
        {
          GridCountGuard(settings.width, w, columnIndex);
          ghost var n := rowIndex * cols + columnIndex;
          GridStep(w, h, cols, base, rowIndex, columnIndex);
          assert |tiles| == base + n;
          tiles := tiles + [Tile(w * columnIndex, (w * columnIndex) + w, h * rowIndex, (h * rowIndex) + h, |tiles|, [])];
          columnIndex := columnIndex + 1;
        }
        GridCountGuard(settings.width, w, columnIndex);
        assert rowIndex * cols + columnIndex == (rowIndex + 1) * cols;
        rowIndex := rowIndex + 1;
      }
      GridCountGuard(settings.height, h, rowIndex);
      assert rowIndex * cols == cols * rows;
    }

    /**
     * `groupComposeToTiles`: for each operation in order and each tile in order, the operation is
     * pushed onto the tile's list when it passes the margin test. `sorted` counts the pushes; an
     * operation that reaches no tile is dropped without an error.
     */
    method GroupComposeToTiles() returns (sorted: nat)
      requires OpsValid(settings.compose, raw)
      modifies this`tiles
      ensures tiles == Route(old(tiles), settings.compose, raw)
      ensures sorted == RouteCount(old(tiles), settings.compose, raw)
      ensures Composed(tiles) == Composed(old(tiles)) + sorted
    {
      var compose := settings.compose;
      var composeMax := |compose|;
      ghost var t0 := tiles;
      sorted := 0;
      var cIndex := 0;
      RouteNone(t0, compose, raw);
      while cIndex < composeMax
        invariant 0 <= cIndex <= composeMax
        invariant OpsValid(compose[..cIndex], raw)
        invariant tiles == Route(t0, compose[..cIndex], raw)
        invariant sorted == RouteCount(t0, compose[..cIndex], raw)
      {
        var c := compose[cIndex];
        var pushed := OfferToTiles(c, raw[c.image]);
        sorted := sorted + pushed;
        RouteStep(t0, compose, cIndex, raw);
        assert compose[..cIndex + 1][..cIndex] == compose[..cIndex];
        cIndex := cIndex + 1;
      }
      assert compose[..cIndex] == compose;
      RouteComposed(t0, compose, raw);
    }

    /**
     * The inner loop of `groupComposeToTiles` for one operation `c` whose image is `image`: every
     * tile, in list order, gets `c` pushed onto its list when `c` passes the margin test.
     */
    method OfferToTiles(c: ComposeOp, image: RawImage) returns (pushed: nat)
      modifies this`tiles
      ensures tiles == PushAll(old(tiles), c, image)
      ensures pushed == HitCount(old(tiles), c, image)
    {
      var w, h := image.width, image.height;
      var tileMax := |tiles|;
      ghost var before := tiles;
      pushed := 0;
      var tileIndex := 0;
      while tileIndex < tileMax
        invariant 0 <= tileIndex <= tileMax && |tiles| == tileMax
        invariant forall k :: 0 <= k < tileIndex ==> tiles[k] == Push(before[k], c, image)
        invariant forall k :: tileIndex <= k < tileMax ==> tiles[k] == before[k]
        invariant pushed == HitCount(before[..tileIndex], c, image)
      {
        HitCountSnoc(before, tileIndex, c, image);
        var tile := tiles[tileIndex];
        if c.x > tile.left - w && c.x < tile.right + w && c.y > tile.top - h && c.y < tile.bottom + h {
          tiles := tiles[tileIndex := tile.(compose := tile.compose + [c])];
          pushed := pushed + 1;
        }
        tileIndex := tileIndex + 1;
      }
      assert before[..tileMax] == before;
    }

    /**
     * `thread()`: the counter restarts at 0 once it reaches `threadCount`; the slot's worker is
     * created the first time the slot is used and returned again on every later use.
     */
    method Thread() returns (worker: Operative)
      modifies this`threadIndex, this`activeThreads, this`slotTrace
      ensures var slot := Slot(old(threadIndex), threadCount);
        && threadIndex == slot + 1 && slotTrace == old(slotTrace) + [slot]
        && slot in activeThreads && worker == activeThreads[slot]
        && (slot in old(activeThreads) ==> activeThreads == old(activeThreads))
        && (slot !in old(activeThreads) ==> activeThreads == old(activeThreads)[slot := worker] && fresh(worker))
    {
      var i := threadIndex;
      if i >= threadCount {
        i := 0;
        threadIndex := 0;
      }
      if i !in activeThreads {
        var created := new Operative();
        activeThreads := activeThreads[i := created];
      }
      worker := activeThreads[i];
      threadIndex := threadIndex + 1;
      slotTrace := slotTrace + [i];
    }

    /**
     * The closure `render` runs for one tile: it takes a worker, clears a `tileWidth` by
     * `tileHeight` buffer, has the worker draw the tile's operations into it, and on completion
     * counts the tile and builds the callback's arguments.
     */
    method RenderTile(tile: Tile, progress: Completion) returns (f: Finished)
      requires settings.tileWidth > 0 && settings.tileHeight > 0
      requires AllWellFormed(raw) && OpsValid(tile.compose, raw) && progress.Valid()
      modifies this`threadIndex, this`activeThreads, this`slotTrace, progress
      ensures progress.Valid() && progress.success == old(progress.success) + 1
      ensures var slot := Slot(old(threadIndex), threadCount);
        && threadIndex == slot + 1 && slotTrace == old(slotTrace) + [slot]
        && activeThreads.Keys == old(activeThreads).Keys + {slot}
        && forall s :: s in old(activeThreads) ==> activeThreads[s] == old(activeThreads)[s]
      ensures f.tile == tile && f.isFinal == (progress.success == progress.max)
      ensures f.pixels == DrawAll(Zeros(settings.tileWidth * settings.tileHeight * 4), tile.compose,
                                  raw, settings.tileWidth, tile.left, tile.top)
    {
      var thread := Thread();
      var canvas := new int[settings.tileWidth * settings.tileHeight * 4](_ => 0);
      assert canvas[..] == Zeros(settings.tileWidth * settings.tileHeight * 4);
      DrawEach(tile.compose, raw, canvas, settings.tileWidth, tile.left, tile.top);
      var merged := canvas[..];
      var isFinal := progress.TileDone();
      f := Finished(tile, merged, isFinal);
    }

    /**
     * `render(callback)`: routes the operations, then renders every tile through the per-tile
     * closure, with the final flag set on the `max`-th completion. The callback invocations are
     * returned in order.
     */
    method Render() returns (finished: seq<Finished>)
      requires Valid()
      modifies this`tiles, this`threadIndex, this`activeThreads, this`slotTrace
      ensures Valid()
      ensures tiles == Route(old(tiles), settings.compose, raw)
      ensures threadIndex == CounterFrom(old(threadIndex), threadCount, |tiles|)
      ensures slotTrace == old(slotTrace) + SlotsFrom(old(threadIndex), threadCount, |tiles|)
      ensures activeThreads.Keys == old(activeThreads).Keys + SlotSet(old(threadIndex), threadCount, |tiles|)
      ensures forall s :: s in old(activeThreads) ==> activeThreads[s] == old(activeThreads)[s]
      ensures old(threadIndex) == 0 && threadCount >= 1 ==>
        forall i :: 0 <= i < |tiles| ==> slotTrace[|old(slotTrace)| + i] == i % threadCount
      ensures |finished| == |tiles|
      ensures forall i :: 0 <= i < |tiles| ==>
        && finished[i].tile == tiles[i]
        && finished[i].isFinal == (i == |tiles| - 1)
        && finished[i].pixels == DrawAll(Zeros(settings.tileWidth * settings.tileHeight * 4), tiles[i].compose,
                                         raw, settings.tileWidth, tiles[i].left, tiles[i].top)
    {
      ghost var t0 := tiles;
      var sorted := GroupComposeToTiles();
      RouteShaped(t0, settings.compose, raw, settings.tileWidth, settings.tileHeight);
      finished := RenderTiles();
      if old(threadIndex) == 0 && threadCount >= 1 {
        forall i | 0 <= i < |tiles|
          ensures slotTrace[|old(slotTrace)| + i] == i % threadCount
        {
          FreshSlots(threadCount, |tiles|, i);
        }
      }
    }

    /** The loop of `render` over the routed tiles, with the completion counter it shares. */
    method RenderTiles() returns (finished: seq<Finished>)
      requires Valid()
      modifies this`threadIndex, this`activeThreads, this`slotTrace
      ensures SlotsAfter(old(threadIndex), old(slotTrace), old(activeThreads), |tiles|)
      ensures |finished| == |tiles|
      ensures forall i :: 0 <= i < |tiles| ==>
        && finished[i].tile == tiles[i]
        && finished[i].isFinal == (i == |tiles| - 1)
        && finished[i].pixels == DrawAll(Zeros(settings.tileWidth * settings.tileHeight * 4), tiles[i].compose,
                                         raw, settings.tileWidth, tiles[i].left, tiles[i].top)
    {
      var tw, th := settings.tileWidth, settings.tileHeight;
      var ts, images := tiles, raw;
      var max := |ts|;
      var progress := new Completion(max);
      ghost var blank := Zeros(tw * th * 4);
      ghost var start, trace0, threads0 := threadIndex, slotTrace, activeThreads;
      ghost var merged := seq(max, j requires 0 <= j < max => DrawAll(blank, ts[j].compose, images, tw, ts[j].left, ts[j].top));
      finished := [];
      var i := 0;
      while i < max
        invariant 0 <= i <= max && |finished| == i
        invariant progress.Valid() && progress.max == max && progress.success == i
        invariant SlotsAfter(start, trace0, threads0, i)
        invariant Completed(finished, ts, merged, i)
      {
        ghost var index, trace, threads := threadIndex, slotTrace, activeThreads;
        var f := RenderTile(ts[i], progress);
        SlotsAdvance(index, trace, threads, threadIndex, slotTrace, activeThreads, threadCount, start, trace0, threads0, i);
        CompletedSnoc(finished, ts, merged, i, f);
        finished := finished + [f];
        i := i + 1;
      }
      forall k | 0 <= k < max
        ensures finished[k].tile == ts[k] && finished[k].isFinal == (k == max - 1)
        ensures finished[k].pixels == DrawAll(blank, ts[k].compose, images, tw, ts[k].left, ts[k].top)
      {
        assert finished[k] == Finished(ts[k], merged[k], k == max - 1);
      }
    }
  }
}

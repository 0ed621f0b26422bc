/**
 * The tile grid built by `buildTiles` and the routing of compose operations done by
 * `groupComposeToTiles`, as functions, with what they guarantee.
 */
module Tiles {
  import opened Images
  import opened DivMod
  import opened Blend

  /** A tile: its pixel bounds, its position in the tile list, and the operations routed to it. */
  datatype Tile = Tile(left: int, right: int, top: int, bottom: int, tileIndex: nat, compose: seq<ComposeOp>)

  /**
   * The number of columns (rows) for an extent of `extent` pixels and tiles `size` pixels wide
   * (high): the loop in `buildTiles` runs while `index <= extent / size`, so every index with
   * `index * size <= extent` gets a tile.
   */
  function GridCount(extent: int, size: int): nat
    requires size > 0
  {
    if extent < 0 then 0 else extent / size + 1
  }

  /** The loop guard `index * size <= extent` holds exactly for the first `GridCount` indices. */
  lemma GridCountGuard(extent: int, size: int, index: nat)
    requires size > 0
    ensures index < GridCount(extent, size) <==> index * size <= extent
  {
    if extent < 0 {
      MulMonotone(0, index, size);
    } else if index <= extent / size {
      MulMonotone(index, extent / size, size);
    } else {
      MulMonotone(extent / size + 1, index, size);
    }
  }

  /** Tile number `k` of a grid `cols` tiles wide, whose tile indices start at `base`. */
  function TileAt(tw: int, th: int, cols: nat, base: nat, k: nat): Tile
    requires cols > 0
  {
    var col, row := k % cols, k / cols;
    Tile(tw * col, tw * col + tw, th * row, th * row + th, base + k, [])
  }

  /** The first `n` tiles, in the order the nested loops push them. */
  function GridPrefix(tw: int, th: int, cols: nat, base: nat, n: nat): (r: seq<Tile>)
    requires cols > 0
    ensures |r| == n
  {
    if n == 0 then [] else GridPrefix(tw, th, cols, base, n - 1) + [TileAt(tw, th, cols, base, n - 1)]
  }

  /** The tiles `buildTiles` appends to a list that already holds `base` tiles. */
  function Grid(width: int, height: int, tw: int, th: int, base: nat): seq<Tile>
    requires tw > 0 && th > 0
  {
    var cols := GridCount(width, tw);
    if cols == 0 then [] else GridPrefix(tw, th, cols, base, cols * GridCount(height, th))
  }

  lemma {:induction false} GridPrefixAt(tw: int, th: int, cols: nat, base: nat, n: nat, k: nat)
    requires cols > 0 && k < n
    ensures GridPrefix(tw, th, cols, base, n)[k] == TileAt(tw, th, cols, base, k)
  {
    if k < n - 1 {
      GridPrefixAt(tw, th, cols, base, n - 1, k);
    }
  }

  /** One step of the nested loops of `buildTiles`: the tile at row `row`, column `col` comes next. */
  lemma GridStep(tw: int, th: int, cols: nat, base: nat, row: nat, col: nat)
    requires cols > 0 && col < cols
    ensures var n := row * cols + col;
      GridPrefix(tw, th, cols, base, n + 1)
        == GridPrefix(tw, th, cols, base, n) + [Tile(tw * col, tw * col + tw, th * row, th * row + th, base + n, [])]
  {
    DivModUnique(row * cols + col, cols, row, col);
  }

  /**
   * Grid shape: `GridCount(width) * GridCount(height)` tiles in row-major order. The tile in row
   * `row` and column `col` has position `row * cols + col`, index `base` plus that position, and
   * bounds `tw * col .. tw * col + tw` by `th * row .. th * row + th`; it has no operations yet.
   */
  lemma GridShape(width: int, height: int, tw: int, th: int, base: nat, row: nat, col: nat)
    requires tw > 0 && th > 0
    requires row < GridCount(height, th) && col < GridCount(width, tw)
    ensures var g := Grid(width, height, tw, th, base);
      var k := row * GridCount(width, tw) + col;
      |g| == GridCount(width, tw) * GridCount(height, th) && k < |g| &&
      g[k] == Tile(tw * col, tw * col + tw, th * row, th * row + th, base + k, [])
  {
    var cols, rows := GridCount(width, tw), GridCount(height, th);
    var k := row * cols + col;
    IndexBelow(row, col, cols, rows);
    GridPrefixAt(tw, th, cols, base, cols * rows, k);
    DivModUnique(k, cols, row, col);
  }

  /** Every grid tile is `tw` by `th` pixels, carries the index `base + k` and has no operations. */
  lemma GridTile(width: int, height: int, tw: int, th: int, base: nat, k: nat)
    requires tw > 0 && th > 0 && k < |Grid(width, height, tw, th, base)|
    ensures var t := Grid(width, height, tw, th, base)[k];
      t.right == t.left + tw && t.bottom == t.top + th && t.tileIndex == base + k && t.compose == []
  {
    var cols := GridCount(width, tw);
    GridPrefixAt(tw, th, cols, base, cols * GridCount(height, th), k);
  }

  predicate Contains(t: Tile, px: int, py: int) {
    t.left <= px < t.right && t.top <= py < t.bottom
  }

  /** Tile `k` of the grid is tile `k` of the row-major enumeration. */
  lemma GridAt(width: int, height: int, tw: int, th: int, base: nat, k: nat)
    requires tw > 0 && th > 0 && k < |Grid(width, height, tw, th, base)|
    ensures GridCount(width, tw) > 0
    ensures Grid(width, height, tw, th, base)[k] == TileAt(tw, th, GridCount(width, tw), base, k)
  {
    var cols := GridCount(width, tw);
    GridPrefixAt(tw, th, cols, base, cols * GridCount(height, th), k);
  }

  /** A pixel inside tile `k` determines its column and row. */
  lemma TileAtContains(tw: int, th: int, cols: nat, base: nat, k: nat, px: int, py: int)
    requires tw > 0 && th > 0 && cols > 0 && Contains(TileAt(tw, th, cols, base, k), px, py)
    ensures k % cols == px / tw && k / cols == py / th
  {
    var col, row := k % cols, k / cols;
    DivModUnique(px, tw, col, px - tw * col);
    DivModUnique(py, th, row, py - th * row);
  }

  /** Coverage: every pixel of the area lies in some tile. */
  lemma GridCovers(width: int, height: int, tw: int, th: int, base: nat, px: int, py: int)
    requires tw > 0 && th > 0 && 0 <= px < width && 0 <= py < height
    ensures var g := Grid(width, height, tw, th, base);
      exists k :: 0 <= k < |g| && Contains(g[k], px, py)
  {
    var col, row := px / tw, py / th;
    assert tw * col <= px < tw * col + tw by { Euclid(px, tw); }
    assert th * row <= py < th * row + th by { Euclid(py, th); }
    assert col < GridCount(width, tw) by { GridCountGuard(width, tw, col); }
    assert row < GridCount(height, th) by { GridCountGuard(height, th, row); }
    GridShape(width, height, tw, th, base, row, col);
    var g := Grid(width, height, tw, th, base);
    var k := row * GridCount(width, tw) + col;
    assert g[k].left == tw * col && g[k].right == tw * col + tw;
    assert g[k].top == th * row && g[k].bottom == th * row + th;
    assert Contains(g[k], px, py);
  }

  /** No overlap: a pixel lies in at most one tile of the grid. */
  lemma GridDisjoint(width: int, height: int, tw: int, th: int, base: nat, k1: nat, k2: nat, px: int, py: int)
    requires tw > 0 && th > 0
    requires var g := Grid(width, height, tw, th, base);
      k1 < |g| && k2 < |g| && Contains(g[k1], px, py) && Contains(g[k2], px, py)
    ensures k1 == k2
  {
    var cols := GridCount(width, tw);
    GridAt(width, height, tw, th, base, k1);
    GridAt(width, height, tw, th, base, k2);
    TileAtContains(tw, th, cols, base, k1, px, py);
    TileAtContains(tw, th, cols, base, k2, px, py);
    Euclid(k1, cols);
    Euclid(k2, cols);
  }

  /**
   * The test in `groupComposeToTiles`: the operation's corner lies strictly inside the tile's
   * bounds widened by the width and height of the operation's image.
   */
  predicate Hits(t: Tile, c: ComposeOp, img: RawImage) {
    c.x > t.left - img.width && c.x < t.right + img.width &&
    c.y > t.top - img.height && c.y < t.bottom + img.height
  }

  /** The operations of `ops` that pass the test for tile `t`, in their original order. */
  function RoutedOps(ops: seq<ComposeOp>, t: Tile, raw: seq<RawImage>): (r: seq<ComposeOp>)
    requires OpsValid(ops, raw)
    ensures |r| <= |ops|
    decreases |ops|
  {
    if ops == [] then []
    else
      var n := |ops| - 1;
      RoutedOps(ops[..n], t, raw) + (if Hits(t, ops[n], raw[ops[n].image]) then [ops[n]] else [])
  }

  /** An operation is routed to a tile exactly when it is in the list and passes the test. */
  lemma {:induction false} RoutedOpsMember(ops: seq<ComposeOp>, t: Tile, raw: seq<RawImage>, c: ComposeOp)
    requires OpsValid(ops, raw)
    ensures c in RoutedOps(ops, t, raw) <==> c in ops && c.image < |raw| && Hits(t, c, raw[c.image])
    decreases |ops|
  {
    if ops != [] {
      var n := |ops| - 1;
      assert ops == ops[..n] + [ops[n]];
      RoutedOpsMember(ops[..n], t, raw, c);
    }
  }

  /** Routing distributes over concatenation, so it keeps the original order of the operations. */
  lemma {:induction false} RoutedOpsAppend(a: seq<ComposeOp>, b: seq<ComposeOp>, t: Tile, raw: seq<RawImage>)
    requires OpsValid(a, raw) && OpsValid(b, raw)
    ensures OpsValid(a + b, raw)
    ensures RoutedOps(a + b, t, raw) == RoutedOps(a, t, raw) + RoutedOps(b, t, raw)
    decreases |b|
  {
    assert OpsValid(a + b, raw) by {
      forall i | 0 <= i < |a + b| ensures (a + b)[i].image < |raw| {
        if i >= |a| { assert (a + b)[i] == b[i - |a|]; }
      }
    }
    if b == [] {
      assert a + b == a;
    } else {
      var n := |b| - 1;
      assert (a + b)[..|a + b| - 1] == a + b[..n];
      assert (a + b)[|a + b| - 1] == b[n];
      RoutedOpsAppend(a, b[..n], t, raw);
    }
  }

  /** One more operation of the list is routed to `t` exactly when it passes the test. */
  lemma RoutedOpsSnoc(ops: seq<ComposeOp>, i: nat, t: Tile, raw: seq<RawImage>)
    requires OpsValid(ops, raw) && i < |ops|
    ensures RoutedOps(ops[..i + 1], t, raw)
         == RoutedOps(ops[..i], t, raw) + (if Hits(t, ops[i], raw[ops[i].image]) then [ops[i]] else [])
  {
    assert ops[..i + 1][..i] == ops[..i];
  }

  /** Every routed operation names an existing image. */
  lemma RoutedOpsValid(ops: seq<ComposeOp>, t: Tile, raw: seq<RawImage>)
    requires OpsValid(ops, raw)
    ensures OpsValid(RoutedOps(ops, t, raw), raw)
  {
    var r := RoutedOps(ops, t, raw);
    forall i | 0 <= i < |r| ensures r[i].image < |raw| {
      RoutedOpsMember(ops, t, raw, r[i]);
    }
  }

  /** A tile after routing: the routed operations are appended to its list. */
  function RouteTile(t: Tile, ops: seq<ComposeOp>, raw: seq<RawImage>): Tile
    requires OpsValid(ops, raw)
  {
    t.(compose := t.compose + RoutedOps(ops, t, raw))
  }

  /** All tiles after `groupComposeToTiles`. */
  function Route(tiles: seq<Tile>, ops: seq<ComposeOp>, raw: seq<RawImage>): (r: seq<Tile>)
    requires OpsValid(ops, raw)
  {
    seq(|tiles|, k requires 0 <= k < |tiles| => RouteTile(tiles[k], ops, raw))
  }

  /** The body of the inner loop of `groupComposeToTiles`: `c` is pushed onto `t` when it passes the test. */
  function Push(t: Tile, c: ComposeOp, img: RawImage): Tile {
    if Hits(t, c, img) then t.(compose := t.compose + [c]) else t
  }

  /** One pass of the inner loop: `c` offered to every tile in turn. */
  function PushAll(tiles: seq<Tile>, c: ComposeOp, img: RawImage): (r: seq<Tile>)
    ensures |r| == |tiles|
  {
    seq(|tiles|, k requires 0 <= k < |tiles| => Push(tiles[k], c, img))
  }

  /** One pass of the outer loop of `groupComposeToTiles` routes one more operation of the list. */
  lemma RouteStep(tiles: seq<Tile>, ops: seq<ComposeOp>, i: nat, raw: seq<RawImage>)
    requires OpsValid(ops, raw) && i < |ops|
    ensures OpsValid(ops[..i], raw) && OpsValid(ops[..i + 1], raw)
    ensures PushAll(Route(tiles, ops[..i], raw), ops[i], raw[ops[i].image]) == Route(tiles, ops[..i + 1], raw)
    ensures HitCount(Route(tiles, ops[..i], raw), ops[i], raw[ops[i].image]) == HitCount(tiles, ops[i], raw[ops[i].image])
  {
    assert OpsValid(ops[..i], raw) && OpsValid(ops[..i + 1], raw);
    var before := Route(tiles, ops[..i], raw);
    forall k | 0 <= k < |tiles|
      ensures PushAll(before, ops[i], raw[ops[i].image])[k] == Route(tiles, ops[..i + 1], raw)[k]
    {
      var t := tiles[k];
      RoutedOpsSnoc(ops, i, t, raw);
      var u := RouteTile(t, ops[..i], raw);
      if Hits(t, ops[i], raw[ops[i].image]) {
        assert u.compose + [ops[i]] == t.compose + (RoutedOps(ops[..i], t, raw) + [ops[i]]);
      }
    }
    HitCountBounds(before, tiles, ops[i], raw[ops[i].image]);
  }

  /** `HitCount` depends only on the bounds of the tiles. */
  lemma {:induction false} HitCountBounds(a: seq<Tile>, b: seq<Tile>, c: ComposeOp, img: RawImage)
    requires |a| == |b|
    requires forall k :: 0 <= k < |a| ==>
      a[k].left == b[k].left && a[k].right == b[k].right && a[k].top == b[k].top && a[k].bottom == b[k].bottom
    ensures HitCount(a, c, img) == HitCount(b, c, img)
    decreases |a|
  {
    if a != [] {
      HitCountBounds(a[1..], b[1..], c, img);
    }
  }

  /** Routing the empty prefix of a list leaves every tile as it is. */
  lemma RouteNone(tiles: seq<Tile>, ops: seq<ComposeOp>, raw: seq<RawImage>)
    ensures OpsValid(ops[..0], raw) && Route(tiles, ops[..0], raw) == tiles
  {
    forall k | 0 <= k < |tiles| ensures RouteTile(tiles[k], ops[..0], raw) == tiles[k] {
      assert tiles[k].compose + [] == tiles[k].compose;
    }
  }

  /** Routing changes only the operation lists, and keeps every operation pointing at an image. */
  lemma RouteKeepsTiles(tiles: seq<Tile>, ops: seq<ComposeOp>, raw: seq<RawImage>, k: nat)
    requires OpsValid(ops, raw) && k < |tiles| && OpsValid(tiles[k].compose, raw)
    ensures var t := Route(tiles, ops, raw)[k];
      |Route(tiles, ops, raw)| == |tiles| &&
      t.left == tiles[k].left && t.right == tiles[k].right && t.top == tiles[k].top &&
      t.bottom == tiles[k].bottom && t.tileIndex == tiles[k].tileIndex && OpsValid(t.compose, raw)
  {
    var r := RoutedOps(ops, tiles[k], raw);
    RoutedOpsValid(ops, tiles[k], raw);
    var all := tiles[k].compose + r;
    forall i | 0 <= i < |all| ensures all[i].image < |raw| {
      if i >= |tiles[k].compose| { assert all[i] == r[i - |tiles[k].compose|]; }
    }
  }

  /** The number of (tile, operation) entries over all tiles. */
  function Composed(tiles: seq<Tile>): nat {
    if tiles == [] then 0 else |tiles[0].compose| + Composed(tiles[1..])
  }

  /** The number of tiles of `tiles` that operation `c` passes the test for. */
  function HitCount(tiles: seq<Tile>, c: ComposeOp, img: RawImage): (r: nat)
    ensures r <= |tiles|
  {
    if tiles == [] then 0 else (if Hits(tiles[0], c, img) then 1 else 0) + HitCount(tiles[1..], c, img)
  }

  lemma {:induction false} HitCountSnoc(tiles: seq<Tile>, i: nat, c: ComposeOp, img: RawImage)
    requires i < |tiles|
    ensures HitCount(tiles[..i + 1], c, img) == HitCount(tiles[..i], c, img) + (if Hits(tiles[i], c, img) then 1 else 0)
    decreases i
  {
    if i > 0 {
      assert tiles[..i + 1][1..] == tiles[1..][..i];
      assert tiles[..i][1..] == tiles[1..][..i - 1];
      HitCountSnoc(tiles[1..], i - 1, c, img);
    }
  }

  /** The number of pushes `groupComposeToTiles` makes for the operations `ops`. */
  function RouteCount(tiles: seq<Tile>, ops: seq<ComposeOp>, raw: seq<RawImage>): (r: nat)
    requires OpsValid(ops, raw)
    ensures r <= |tiles| * |ops|
    decreases |ops|
  {
    if ops == [] then 0
    else
      var n := |ops| - 1;
      RouteCount(tiles, ops[..n], raw) + HitCount(tiles, ops[n], raw[ops[n].image])
  }

  lemma {:induction false} RouteCountSplit(tiles: seq<Tile>, ops: seq<ComposeOp>, raw: seq<RawImage>)
    requires OpsValid(ops, raw) && tiles != []
    ensures RouteCount(tiles, ops, raw) == |RoutedOps(ops, tiles[0], raw)| + RouteCount(tiles[1..], ops, raw)
    decreases |ops|
  {
    if ops != [] {
      RouteCountSplit(tiles, ops[..|ops| - 1], raw);
    }
  }

  /**
   * The count of pushes is what the routing adds: the tiles hold `RouteCount` more entries after
   * routing than before.
   */
  lemma {:induction false} RouteComposed(tiles: seq<Tile>, ops: seq<ComposeOp>, raw: seq<RawImage>)
    requires OpsValid(ops, raw)
    ensures Composed(Route(tiles, ops, raw)) == Composed(tiles) + RouteCount(tiles, ops, raw)
    decreases |tiles|
  {
    if tiles != [] {
      RouteComposed(tiles[1..], ops, raw);
      RouteCountSplit(tiles, ops, raw);
      assert Route(tiles, ops, raw)[1..] == Route(tiles[1..], ops, raw);
    } else {
      RouteCountEmpty(ops, raw);
    }
  }

  lemma {:induction false} RouteCountEmpty(ops: seq<ComposeOp>, raw: seq<RawImage>)
    requires OpsValid(ops, raw)
    ensures RouteCount([], ops, raw) == 0
    decreases |ops|
  {
    if ops != [] {
      RouteCountEmpty(ops[..|ops| - 1], raw);
    }
  }

  /** The drop is harmless: an operation that fails the test for a tile paints nothing in it. */
  lemma UnroutedOpPaintsNothing(t: Tile, tw: nat, th: nat, buf: seq<int>, c: ComposeOp, img: RawImage)
    requires tw > 0 && th > 0 && t.right == t.left + tw && t.bottom == t.top + th
    requires |buf| == tw * th * 4 && WellFormed(img) && !Hits(t, c, img)
    ensures DrawImage(buf, tw, img, c.x - t.left, c.y - t.top) == buf
  {
    var r := DrawImage(buf, tw, img, c.x - t.left, c.y - t.top);
    forall k | 0 <= k < |buf| ensures r[k] == buf[k] {
      DrawImageAt(buf, tw, img, c.x - t.left, c.y - t.top, k);
      var q := k / 4;
      if Covers(tw, img, c.x - t.left, c.y - t.top, q) {
        DivBelow(q, tw, th);
        assert false;
      }
    }
  }

  /**
   * Routing is sound: compositing only the operations routed to a tile gives the same tile as
   * compositing every operation of the list.
   */
  lemma {:induction false} RoutingPreservesComposite(t: Tile, tw: nat, th: nat, buf: seq<int>, ops: seq<ComposeOp>, raw: seq<RawImage>)
    requires tw > 0 && th > 0 && t.right == t.left + tw && t.bottom == t.top + th
    requires |buf| == tw * th * 4 && AllWellFormed(raw) && OpsValid(ops, raw)
    ensures OpsValid(RoutedOps(ops, t, raw), raw)
    ensures DrawAll(buf, RoutedOps(ops, t, raw), raw, tw, t.left, t.top) == DrawAll(buf, ops, raw, tw, t.left, t.top)
    decreases |ops|
  {
    RoutedOpsValid(ops, t, raw);
    if ops != [] {
      var n := |ops| - 1;
      var init, c := ops[..n], ops[n];
      assert ops == init + [c];
      RoutingPreservesComposite(t, tw, th, buf, init, raw);
      RoutedOpsValid(init, t, raw);
      DrawAllSnoc(buf, init, c, raw, tw, t.left, t.top);
      var before := DrawAll(buf, init, raw, tw, t.left, t.top);
      if Hits(t, c, raw[c.image]) {
        DrawAllSnoc(buf, RoutedOps(init, t, raw), c, raw, tw, t.left, t.top);
      } else {
        assert RoutedOps(ops, t, raw) == RoutedOps(init, t, raw);
        UnroutedOpPaintsNothing(t, tw, th, before, c, raw[c.image]);
      }
    }
  }
}

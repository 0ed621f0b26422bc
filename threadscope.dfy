/**
 * `CanvasWorker.threadScope`: the code a worker runs for one tile. `Draw` rewrites the tile's
 * pixel buffer in place; `DrawEach` draws a tile's operations one after the other.
 */
module ThreadScope {
  import opened Images
  import opened Blend

  /**
   * The body of `draw` for one accepted pixel: the source bytes at `i` are read, the destination
   * bytes at `canvasIndex` are read, combined by the colour rule and written back.
   */
  method BlendPixel(canvas: array<int>, canvasIndex: int, data: seq<int>, i: int)
    requires 0 <= canvasIndex && canvasIndex + 4 <= canvas.Length && 0 <= i && i + 4 <= |data|
    modifies canvas
    ensures canvas[..] == BlendAt(old(canvas[..]), canvasIndex, data, i)
  {
    var sr, sg, sb, sn := data[i], data[i + 1], data[i + 2], data[i + 3];
    var dr, dg, db, dn := canvas[canvasIndex], canvas[canvasIndex + 1], canvas[canvasIndex + 2], canvas[canvasIndex + 3];
    if sn == 255 {
      dr, dg, db := sr, sg, sb;
    } else if sn > 1 {
      dr, dg, db := Average(dr, sr), Average(dg, sg), Average(db, sb);
    } else {
      dr, dg, db := Min(dr + sr, 255), Min(dg + sg, 255), Min(db + sb, 255);
    }
    dn := dn + sn;
    canvas[canvasIndex] := dr;
    canvas[canvasIndex + 1] := dg;
    canvas[canvasIndex + 2] := db;
    canvas[canvasIndex + 3] := if dn < 255 then dn else 255;
  }

  /**
   * `draw(rawCanvas, rawImage, x, y)` on a canvas `canvasWidth` pixels wide whose bytes are
   * `canvas`. The cursor `i` walks the source four bytes at a time; a pixel whose destination
   * column is outside the canvas is skipped, and a write outside the buffer has no effect.
   */
  method Draw(canvas: array<int>, canvasWidth: nat, image: RawImage, x: int, y: int)
    requires WellFormed(image)
    modifies canvas
    ensures canvas[..] == DrawImage(old(canvas[..]), canvasWidth, image, x, y)
  {
    var i := 0;
    var max := |image.data|;
    ghost var pixels := image.width * image.height;
    while i < max
      invariant 0 <= i <= max && i % 4 == 0
      invariant canvas[..] == DrawPrefix(old(canvas[..]), canvasWidth, image, x, y, i / 4)
    {
      ghost var before := canvas[..];
      ghost var j := i / 4;
      assert i == 4 * j && j < pixels && i + 4 <= max;
      var imageX := (i / 4) % image.width;
      var imageY := (i / 4) / image.width;
      var canvasX := imageX + x;
      var canvasY := imageY + y;
      var canvasIndex := (canvasY * canvasWidth + canvasX) * 4;

      if canvasX < 0 || canvasX >= canvasWidth {
        i := i + 4;
        assert i / 4 == j + 1;
        assert canvas[..] == StepPixel(before, canvasWidth, image, x, y, j);
        continue;
      }
      if 0 <= canvasIndex && canvasIndex + 4 <= canvas.Length {
        BlendPixel(canvas, canvasIndex, image.data, i);
      }
      i := i + 4;
      assert i / 4 == j + 1;
      assert canvas[..] == StepPixel(before, canvasWidth, image, x, y, j);
    }
  }

  /**
   * `drawEach(compose, rawImages, rawCanvas, tileX, tileY, callback)`: each operation is drawn at
   * its offset from the tile origin, in list order; the callback receives the same buffer.
   */
  method DrawEach(compose: seq<ComposeOp>, rawImages: seq<RawImage>, canvas: array<int>, canvasWidth: nat, tileX: int, tileY: int)
    requires AllWellFormed(rawImages) && OpsValid(compose, rawImages)
    modifies canvas
    ensures canvas[..] == DrawAll(old(canvas[..]), compose, rawImages, canvasWidth, tileX, tileY)
  {
    var i := 0;
    var max := |compose|;
    while i < max
      invariant 0 <= i <= max
      invariant canvas[..] == DrawAll(old(canvas[..]), compose[..i], rawImages, canvasWidth, tileX, tileY)
    {
      var c := compose[i];
      Draw(canvas, canvasWidth, rawImages[c.image], c.x - tileX, c.y - tileY);
      DrawAllSnoc(old(canvas[..]), compose[..i], c, rawImages, canvasWidth, tileX, tileY);
      assert compose[..i + 1] == compose[..i] + [c];
      i := i + 1;
    }
    assert compose[..i] == compose;
  }
}

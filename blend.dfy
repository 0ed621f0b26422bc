/**
 * What `threadScope.draw` and `threadScope.drawEach` compute, as functions on byte sequences.
 *
 * `draw` visits the source pixels in order. Source pixel j sits at column j % width and row
 * j / width of the source; it lands on destination column `j % width + x` and row `j / width + y`.
 * Pixels whose destination column is outside the destination width are skipped. The row is not
 * checked, but a write outside a typed array has no effect, so a pixel whose destination index
 * falls outside the buffer leaves the buffer unchanged.
 */
module Blend {
  import opened Images
  import opened DivMod

  function Min(a: int, b: int): int {
    if a < b then a else b
  }

  function Max(a: int, b: int): int {
    if a < b then b else a
  }

  /**
   * The byte a Uint8ClampedArray stores for `(d + s) / 2`: the nearest integer, and of two
   * equally near integers the even one.
   */
  function Average(d: int, s: int): (v: int)
    ensures -1 <= 2 * v - (d + s) <= 1
    ensures (d + s) % 2 == 0 ==> 2 * v == d + s
    ensures (d + s) % 2 != 0 ==> v % 2 == 0
    ensures Min(d, s) <= v <= Max(d, s)
  {
    var sum := d + s;
    if sum % 2 == 0 then sum / 2
    else if (sum / 2) % 2 == 0 then sum / 2
    else sum / 2 + 1
  }

  /** A colour channel after a source pixel with alpha `a` and channel value `s` is drawn over `d`. */
  function Channel(a: int, d: int, s: int): int {
    if a == 255 then s
    else if a > 1 then Average(d, s)
    else Min(d + s, 255)
  }

  /** The destination alpha after adding source alpha `a`, saturated at 255. */
  function Alpha(d: int, a: int): int {
    if d + a < 255 then d + a else 255
  }

  /** The three-way colour rule, for byte inputs. */
  lemma ChannelRule(a: int, d: int, s: int)
    requires IsByte(a) && IsByte(d) && IsByte(s)
    ensures IsByte(Channel(a, d, s))
    ensures a == 255 ==> Channel(a, d, s) == s
    ensures 1 < a < 255 ==> Min(d, s) <= Channel(a, d, s) <= Max(d, s)
    ensures a <= 1 ==> Channel(a, d, s) == Min(d + s, 255) && Channel(a, d, s) >= Max(d, s)
  {
  }

  /** Alpha accumulates, never decreases and never exceeds 255. */
  lemma AlphaRule(d: int, a: int)
    requires IsByte(d) && IsByte(a)
    ensures IsByte(Alpha(d, a)) && d <= Alpha(d, a)
    ensures Alpha(d, a) == Min(d + a, 255)
  {
  }

  /**
   * Byte `c` (0 = red .. 3 = alpha) of the destination pixel at byte offset `ci` after drawing the
   * source pixel at byte offset `si` over it; all four reads happen before any write.
   */
  function PixelByte(dst: seq<int>, ci: int, src: seq<int>, si: int, c: int): int
    requires 0 <= ci && ci + 4 <= |dst| && 0 <= si && si + 4 <= |src| && 0 <= c < 4
  {
    if c == 3 then Alpha(dst[ci + 3], src[si + 3])
    else Channel(src[si + 3], dst[ci + c], src[si + c])
  }

  /** A blended byte depends only on the four destination bytes of its pixel. */
  lemma PixelByteFrame(a: seq<int>, b: seq<int>, ci: int, src: seq<int>, si: int, c: int)
    requires 0 <= ci && ci + 4 <= |a| && ci + 4 <= |b| && 0 <= si && si + 4 <= |src| && 0 <= c < 4
    requires forall i :: ci <= i < ci + 4 ==> a[i] == b[i]
    ensures PixelByte(a, ci, src, si, c) == PixelByte(b, ci, src, si, c)
  {
    assert a[ci + 3] == b[ci + 3] && a[ci + c] == b[ci + c];
  }

  /** Writes the blended pixel back at `ci`; no other byte changes. */
  function BlendAt(dst: seq<int>, ci: int, src: seq<int>, si: int): (r: seq<int>)
    requires 0 <= ci && ci + 4 <= |dst| && 0 <= si && si + 4 <= |src|
    ensures |r| == |dst|
    ensures forall k :: 0 <= k < |dst| ==>
      r[k] == if ci <= k < ci + 4 then PixelByte(dst, ci, src, si, k - ci) else dst[k]
  {
    dst[ci := PixelByte(dst, ci, src, si, 0)]
       [ci + 1 := PixelByte(dst, ci, src, si, 1)]
       [ci + 2 := PixelByte(dst, ci, src, si, 2)]
       [ci + 3 := PixelByte(dst, ci, src, si, 3)]
  }

  /** One iteration of the loop in `draw`: source pixel `j` drawn at offset (x, y) into a canvas `cw` pixels wide. */
  function StepPixel(dst: seq<int>, cw: nat, img: RawImage, x: int, y: int, j: nat): (r: seq<int>)
    requires WellFormed(img) && j < img.width * img.height
    ensures |r| == |dst|
  {
    var cx := j % img.width + x;
    var cy := j / img.width + y;
    var ci := (cy * cw + cx) * 4;
    if cx < 0 || cx >= cw then dst
    else if 0 <= ci && ci + 4 <= |dst| then BlendAt(dst, ci, img.data, 4 * j)
    else dst
  }

  /** The destination after the first `n` source pixels. */
  function DrawPrefix(dst: seq<int>, cw: nat, img: RawImage, x: int, y: int, n: nat): (r: seq<int>)
    requires WellFormed(img) && n <= img.width * img.height
    ensures |r| == |dst|
    decreases n
  {
    if n == 0 then dst
    else StepPixel(DrawPrefix(dst, cw, img, x, y, n - 1), cw, img, x, y, n - 1)
  }

  /** `draw(rawCanvas, rawImage, x, y)`. */
  function DrawImage(dst: seq<int>, cw: nat, img: RawImage, x: int, y: int): (r: seq<int>)
    requires WellFormed(img)
    ensures |r| == |dst|
  {
    DrawPrefix(dst, cw, img, x, y, img.width * img.height)
  }

  /** Destination pixel `q` of a canvas `cw` wide lies under the image drawn at (x, y). */
  predicate Covers(cw: nat, img: RawImage, x: int, y: int, q: int)
    requires cw > 0
  {
    0 <= q % cw - x < img.width && 0 <= q / cw - y < img.height
  }

  /** The number of the source pixel that lands on destination pixel `q`. */
  function SourcePixel(cw: nat, img: RawImage, x: int, y: int, q: int): int
    requires cw > 0
  {
    (q / cw - y) * img.width + (q % cw - x)
  }

  lemma SourcePixelBound(cw: nat, img: RawImage, x: int, y: int, q: int)
    requires cw > 0 && Covers(cw, img, x, y, q)
    ensures 0 <= SourcePixel(cw, img, x, y, q) < img.width * img.height
  {
    IndexBelow(q / cw - y, q % cw - x, img.width, img.height);
  }

  /** Byte `c` of the source pixel that lands on destination pixel `q`. */
  function SourceByte(cw: nat, img: RawImage, x: int, y: int, q: int, c: int): int
    requires WellFormed(img) && cw > 0 && Covers(cw, img, x, y, q) && 0 <= c < 4
  {
    SourcePixelBound(cw, img, x, y, q);
    img.data[4 * SourcePixel(cw, img, x, y, q) + c]
  }

  /** The destination coordinates of source pixel `j` are those of a destination pixel it covers. */
  lemma CoveredIndex(cw: nat, img: RawImage, x: int, y: int, j: nat, q: int)
    requires cw > 0 && img.width > 0 && Covers(cw, img, x, y, q) && SourcePixel(cw, img, x, y, q) == j
    ensures j % img.width + x == q % cw && j / img.width + y == q / cw
    ensures ((j / img.width + y) * cw + (j % img.width + x)) * 4 == q * 4
  {
    DivModUnique(j, img.width, q / cw - y, q % cw - x);
  }

  /** A byte written for source pixel `j` belongs to a destination pixel that `j` covers. */
  lemma WrittenIndex(cw: nat, img: RawImage, x: int, y: int, j: nat, k: int)
    requires cw > 0 && j < img.width * img.height
    requires 0 <= j % img.width + x < cw
    requires 0 <= ((j / img.width + y) * cw + (j % img.width + x)) * 4 <= k
    requires k < ((j / img.width + y) * cw + (j % img.width + x)) * 4 + 4
    ensures Covers(cw, img, x, y, k / 4) && SourcePixel(cw, img, x, y, k / 4) == j
  {
    var w := img.width;
    var cx, cy := j % w + x, j / w + y;
    var ci := (cy * cw + cx) * 4;
    DivModUnique(k, 4, cy * cw + cx, k - ci);
    DivModUnique(k / 4, cw, cy, cx);
    DivBelow(j, w, img.height);
  }

  /** When source pixel `j` lands inside the canvas and the buffer, its step is the blend at its offset. */
  lemma StepPixelBlends(d: seq<int>, cw: nat, img: RawImage, x: int, y: int, j: nat, ci: int)
    requires WellFormed(img) && j < img.width * img.height && 0 <= j % img.width + x < cw
    requires ci == ((j / img.width + y) * cw + (j % img.width + x)) * 4 && 0 <= ci && ci + 4 <= |d|
    ensures StepPixel(d, cw, img, x, y, j) == BlendAt(d, ci, img.data, 4 * j)
  {
  }

  /** The step for the source pixel that covers byte `k` blends that byte. */
  lemma StepPixelHit(d: seq<int>, cw: nat, img: RawImage, x: int, y: int, j: nat, k: int)
    requires WellFormed(img) && j < img.width * img.height
    requires cw > 0 && |d| % 4 == 0 && 0 <= k < |d|
    requires Covers(cw, img, x, y, k / 4) && SourcePixel(cw, img, x, y, k / 4) == j
    ensures 0 <= k / 4 * 4 && k / 4 * 4 + 4 <= |d| && 4 * j + 4 <= |img.data|
    ensures StepPixel(d, cw, img, x, y, j)[k] == PixelByte(d, k / 4 * 4, img.data, 4 * j, k % 4)
  {
    var q := k / 4;
    var ci := ((j / img.width + y) * cw + (j % img.width + x)) * 4;
    Euclid(k, 4);
    CoveredIndex(cw, img, x, y, j, q);
    assert ci == q * 4 && ci + 4 <= |d|;
    StepPixelBlends(d, cw, img, x, y, j, ci);
    assert k - ci == k % 4;
  }

  /** The step for any other source pixel leaves byte `k` alone. */
  lemma StepPixelMiss(d: seq<int>, cw: nat, img: RawImage, x: int, y: int, j: nat, k: int)
    requires WellFormed(img) && j < img.width * img.height
    requires cw > 0 && 0 <= k < |d|
    requires !(Covers(cw, img, x, y, k / 4) && SourcePixel(cw, img, x, y, k / 4) == j)
    ensures StepPixel(d, cw, img, x, y, j)[k] == d[k]
  {
    var cx := j % img.width + x;
    var ci := ((j / img.width + y) * cw + cx) * 4;
    if 0 <= cx < cw && 0 <= ci && ci + 4 <= |d| {
      if ci <= k < ci + 4 {
        WrittenIndex(cw, img, x, y, j, k);
        assert false;
      }
      StepPixelBlends(d, cw, img, x, y, j, ci);
    }
  }

  /** One loop iteration changes byte `k` exactly when it handles the source pixel that covers byte `k`. */
  lemma StepPixelAt(d: seq<int>, cw: nat, img: RawImage, x: int, y: int, j: nat, k: int)
    requires WellFormed(img) && j < img.width * img.height
    requires cw > 0 && |d| % 4 == 0 && 0 <= k < |d|
    ensures 0 <= k / 4 * 4 && k / 4 * 4 + 4 <= |d| && 4 * j + 4 <= |img.data|
    ensures StepPixel(d, cw, img, x, y, j)[k] ==
      if Covers(cw, img, x, y, k / 4) && SourcePixel(cw, img, x, y, k / 4) == j
      then PixelByte(d, k / 4 * 4, img.data, 4 * j, k % 4)
      else d[k]
  {
    Euclid(k, 4);
    assert 4 * j + 4 <= |img.data| by {
      MulMonotone(j + 1, img.width * img.height, 4);
    }
    if Covers(cw, img, x, y, k / 4) && SourcePixel(cw, img, x, y, k / 4) == j {
      StepPixelHit(d, cw, img, x, y, j, k);
    } else {
      StepPixelMiss(d, cw, img, x, y, j, k);
    }
  }

  /** After `n` pixels, a byte has changed exactly when its source pixel is among the first `n`. */
  lemma {:induction false} DrawPrefixAt(dst: seq<int>, cw: nat, img: RawImage, x: int, y: int, n: nat, k: int)
    requires WellFormed(img) && n <= img.width * img.height
    requires cw > 0 && |dst| % 4 == 0 && 0 <= k < |dst|
    ensures 0 <= k / 4 * 4 && k / 4 * 4 + 4 <= |dst|
    ensures Covers(cw, img, x, y, k / 4) ==> 0 <= 4 * SourcePixel(cw, img, x, y, k / 4) && 4 * SourcePixel(cw, img, x, y, k / 4) + 4 <= |img.data|
    ensures DrawPrefix(dst, cw, img, x, y, n)[k] ==
      if Covers(cw, img, x, y, k / 4) && SourcePixel(cw, img, x, y, k / 4) < n
      then PixelByte(dst, k / 4 * 4, img.data, 4 * SourcePixel(cw, img, x, y, k / 4), k % 4)
      else dst[k]
  {
    var q := k / 4;
    Euclid(k, 4);
    if Covers(cw, img, x, y, q) {
      SourcePixelBound(cw, img, x, y, q);
    }
    if n > 0 {
      var prev := DrawPrefix(dst, cw, img, x, y, n - 1);
      assert DrawPrefix(dst, cw, img, x, y, n)[k] == StepPixel(prev, cw, img, x, y, n - 1)[k];
      StepPixelAt(prev, cw, img, x, y, n - 1, k);
      if Covers(cw, img, x, y, q) && SourcePixel(cw, img, x, y, q) == n - 1 {
        var ci := q * 4;
        forall b | ci <= b < ci + 4
          ensures prev[b] == dst[b]
        {
          assert b / 4 == q;
          DrawPrefixAt(dst, cw, img, x, y, n - 1, b);
        }
        PixelByteFrame(prev, dst, ci, img.data, 4 * (n - 1), k % 4);
      } else {
        DrawPrefixAt(dst, cw, img, x, y, n - 1, k);
      }
    }
  }

  /**
   * Clipping and footprint of `draw`: a destination byte changes only if an image pixel lands on
   * its pixel, and then it is that pixel blended over the ORIGINAL destination pixel.
   */
  lemma DrawImageAt(dst: seq<int>, cw: nat, img: RawImage, x: int, y: int, k: int)
    requires WellFormed(img) && cw > 0 && |dst| % 4 == 0 && 0 <= k < |dst|
    ensures 0 <= k / 4 * 4 && k / 4 * 4 + 4 <= |dst|
    ensures Covers(cw, img, x, y, k / 4) ==> 0 <= 4 * SourcePixel(cw, img, x, y, k / 4) && 4 * SourcePixel(cw, img, x, y, k / 4) + 4 <= |img.data|
    ensures DrawImage(dst, cw, img, x, y)[k] ==
      if Covers(cw, img, x, y, k / 4)
      then PixelByte(dst, k / 4 * 4, img.data, 4 * SourcePixel(cw, img, x, y, k / 4), k % 4)
      else dst[k]
  {
    if Covers(cw, img, x, y, k / 4) {
      SourcePixelBound(cw, img, x, y, k / 4);
    }
    DrawPrefixAt(dst, cw, img, x, y, img.width * img.height, k);
  }

  /**
   * The colour rule and alpha accumulation of `draw`, byte by byte: an uncovered byte keeps its
   * value; a covered colour byte is overwritten (alpha 255), averaged (alpha above 1) or added with
   * saturation (alpha 0 or 1); a covered alpha byte becomes min(A + a, 255). Every byte stays a byte.
   */
  lemma DrawImageByte(dst: seq<int>, cw: nat, img: RawImage, x: int, y: int, k: int)
    requires WellFormed(img) && cw > 0 && |dst| % 4 == 0 && Bytes(dst) && 0 <= k < |dst|
    ensures var r := DrawImage(dst, cw, img, x, y);
      IsByte(r[k]) &&
      (!Covers(cw, img, x, y, k / 4) ==> r[k] == dst[k]) &&
      (Covers(cw, img, x, y, k / 4) ==>
        var a := SourceByte(cw, img, x, y, k / 4, 3);
        var s := SourceByte(cw, img, x, y, k / 4, k % 4);
        (k % 4 == 3 ==> r[k] == Min(dst[k] + a, 255) && dst[k] <= r[k]) &&
        (k % 4 < 3 && a == 255 ==> r[k] == s) &&
        (k % 4 < 3 && 1 < a < 255 ==> Min(dst[k], s) <= r[k] <= Max(dst[k], s) && -1 <= 2 * r[k] - (dst[k] + s) <= 1) &&
        (k % 4 < 3 && a <= 1 ==> r[k] == Min(dst[k] + s, 255)))
  {
    DrawImageAt(dst, cw, img, x, y, k);
    var r := DrawImage(dst, cw, img, x, y);
    if Covers(cw, img, x, y, k / 4) {
      var ci, si := k / 4 * 4, 4 * SourcePixel(cw, img, x, y, k / 4);
      var c := k % 4;
      assert ci + c == k && ci + 3 < |dst|;
      assert r[k] == PixelByte(dst, ci, img.data, si, c);
      assert SourceByte(cw, img, x, y, k / 4, 3) == img.data[si + 3];
      assert SourceByte(cw, img, x, y, k / 4, c) == img.data[si + c];
      if c == 3 {
        AlphaRule(dst[k], img.data[si + 3]);
      } else {
        ChannelRule(img.data[si + 3], dst[k], img.data[si + c]);
      }
    }
  }

  /** `draw` keeps the destination a buffer of bytes. */
  lemma DrawImageBytes(dst: seq<int>, cw: nat, img: RawImage, x: int, y: int)
    requires WellFormed(img) && cw > 0 && |dst| % 4 == 0 && Bytes(dst)
    ensures Bytes(DrawImage(dst, cw, img, x, y))
  {
    forall k | 0 <= k < |dst|
      ensures IsByte(DrawImage(dst, cw, img, x, y)[k])
    {
      DrawImageByte(dst, cw, img, x, y, k);
    }
  }

  /**
   * `draw` checks only the column; in a buffer of exactly `cw * ch` pixels, the index check a typed
   * array applies to every write is the same as checking the row.
   */
  lemma RowGuard(cw: nat, ch: nat, cx: int, cy: int)
    requires cw > 0 && 0 <= cx < cw
    ensures (0 <= (cy * cw + cx) * 4 && (cy * cw + cx) * 4 + 4 <= cw * ch * 4) <==> 0 <= cy < ch
  {
    if 0 <= cy < ch {
      IndexBelow(cy, cx, cw, ch);
    } else if cy < 0 {
      MulMonotone(cy, -1, cw);
    } else {
      MulMonotone(ch, cy, cw);
    }
  }

  /**
   * `drawEach(compose, rawImages, rawCanvas, tileX, tileY)`: `draw` folded over the operations in
   * list order, each at its offset from the tile origin.
   */
  function DrawAll(dst: seq<int>, ops: seq<ComposeOp>, raw: seq<RawImage>, cw: nat, tileX: int, tileY: int): (r: seq<int>)
    requires AllWellFormed(raw) && OpsValid(ops, raw)
    ensures |r| == |dst|
    decreases |ops|
  {
    if ops == [] then dst
    else
      var c := ops[0];
      DrawAll(DrawImage(dst, cw, raw[c.image], c.x - tileX, c.y - tileY), ops[1..], raw, cw, tileX, tileY)
  }

  /** Drawing one more operation draws it over the result of the earlier ones. */
  lemma {:induction false} DrawAllSnoc(dst: seq<int>, ops: seq<ComposeOp>, c: ComposeOp, raw: seq<RawImage>, cw: nat, tileX: int, tileY: int)
    requires AllWellFormed(raw) && OpsValid(ops, raw) && c.image < |raw|
    ensures OpsValid(ops + [c], raw)
    ensures DrawAll(dst, ops + [c], raw, cw, tileX, tileY)
         == DrawImage(DrawAll(dst, ops, raw, cw, tileX, tileY), cw, raw[c.image], c.x - tileX, c.y - tileY)
    decreases |ops|
  {
    assert forall i :: 0 <= i < |ops| ==> (ops + [c])[i] == ops[i];
    if ops == [] {
      assert ops + [c] == [c];
    } else {
      var c0 := ops[0];
      assert (ops + [c])[1..] == ops[1..] + [c];
      DrawAllSnoc(DrawImage(dst, cw, raw[c0.image], c0.x - tileX, c0.y - tileY), ops[1..], c, raw, cw, tileX, tileY);
    }
  }

  /** `drawEach` keeps the destination a buffer of bytes. */
  lemma {:induction false} DrawAllBytes(dst: seq<int>, ops: seq<ComposeOp>, raw: seq<RawImage>, cw: nat, tileX: int, tileY: int)
    requires AllWellFormed(raw) && OpsValid(ops, raw) && cw > 0 && |dst| % 4 == 0 && Bytes(dst)
    ensures Bytes(DrawAll(dst, ops, raw, cw, tileX, tileY))
    decreases |ops|
  {
    if ops != [] {
      var c := ops[0];
      DrawImageBytes(dst, cw, raw[c.image], c.x - tileX, c.y - tileY);
      DrawAllBytes(DrawImage(dst, cw, raw[c.image], c.x - tileX, c.y - tileY), ops[1..], raw, cw, tileX, tileY);
    }
  }

  /** An opaque source pixel replaces the colour under it. */
  lemma OpaqueWins(dst: seq<int>, cw: nat, img: RawImage, x: int, y: int, k: int)
    requires WellFormed(img) && cw > 0 && |dst| % 4 == 0 && 0 <= k < |dst| && k % 4 < 3
    requires Covers(cw, img, x, y, k / 4) && SourceByte(cw, img, x, y, k / 4, 3) == 255
    ensures DrawImage(dst, cw, img, x, y)[k] == SourceByte(cw, img, x, y, k / 4, k % 4)
  {
    DrawImageAt(dst, cw, img, x, y, k);
    var ci, si := k / 4 * 4, 4 * SourcePixel(cw, img, x, y, k / 4);
    assert ci + k % 4 == k;
    assert SourceByte(cw, img, x, y, k / 4, 3) == img.data[si + 3];
    assert SourceByte(cw, img, x, y, k / 4, k % 4) == img.data[si + k % 4];
    assert DrawImage(dst, cw, img, x, y)[k] == PixelByte(dst, ci, img.data, si, k % 4);
  }

  /**
   * Later operations paint over earlier ones: where the last operation of the list has a fully
   * opaque pixel, the result has that pixel's colour, whatever was drawn before.
   */
  lemma LastOpaqueWins(dst: seq<int>, ops: seq<ComposeOp>, raw: seq<RawImage>, cw: nat, tileX: int, tileY: int, k: int)
    requires AllWellFormed(raw) && OpsValid(ops, raw) && |ops| > 0
    requires cw > 0 && |dst| % 4 == 0 && 0 <= k < |dst| && k % 4 < 3
    requires var c := ops[|ops| - 1];
      Covers(cw, raw[c.image], c.x - tileX, c.y - tileY, k / 4) &&
      SourceByte(cw, raw[c.image], c.x - tileX, c.y - tileY, k / 4, 3) == 255
    ensures var c := ops[|ops| - 1];
      DrawAll(dst, ops, raw, cw, tileX, tileY)[k] == SourceByte(cw, raw[c.image], c.x - tileX, c.y - tileY, k / 4, k % 4)
  {
    var n := |ops| - 1;
    var c := ops[n];
    assert ops == ops[..n] + [c];
    DrawAllSnoc(dst, ops[..n], c, raw, cw, tileX, tileY);
    OpaqueWins(DrawAll(dst, ops[..n], raw, cw, tileX, tileY), cw, raw[c.image], c.x - tileX, c.y - tileY, k);
  }

  /**
   * Two worked cases of the colour rule: zero-alpha pixels (10,10,10,0) and then (20,20,20,0) drawn
   * over a cleared pixel add up to (30,30,30,0), and three pixels of alpha 200 saturate the
   * destination alpha at 255.
   */
  lemma BlendExamples()
    ensures BlendAt(BlendAt([0, 0, 0, 0], 0, [10, 10, 10, 0], 0), 0, [20, 20, 20, 0], 0) == [30, 30, 30, 0]
    ensures Alpha(Alpha(Alpha(0, 200), 200), 200) == 255
  {
    var once := BlendAt([0, 0, 0, 0], 0, [10, 10, 10, 0], 0);
    assert once == [10, 10, 10, 0];
  }
}

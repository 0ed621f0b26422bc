/** Decoded RGBA images and the placement operations that refer to them. */
module Images {

  /** A value a Uint8ClampedArray can hold. */
  predicate IsByte(v: int) {
    0 <= v <= 255
  }

  predicate Bytes(s: seq<int>) {
    forall k :: 0 <= k < |s| ==> IsByte(s[k])
  }

  /** An ImageData value: `width * height` pixels, row by row, four bytes (R, G, B, A) each. */
  datatype RawImage = RawImage(width: nat, height: nat, data: seq<int>)

  predicate WellFormed(img: RawImage) {
    |img.data| == img.width * img.height * 4 && Bytes(img.data)
  }

  predicate AllWellFormed(raw: seq<RawImage>) {
    forall i :: 0 <= i < |raw| ==> WellFormed(raw[i])
  }

  /** One entry of `settings.compose`: draw raw image number `image` with its top-left corner at (x, y). */
  datatype ComposeOp = ComposeOp(image: nat, x: int, y: int)

  /** Every operation names an image that exists. */
  predicate OpsValid(ops: seq<ComposeOp>, raw: seq<RawImage>) {
    forall i :: 0 <= i < |ops| ==> ops[i].image < |raw|
  }
}

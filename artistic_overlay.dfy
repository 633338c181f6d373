/**
 * The imperative core of `write_artistic` (qrcode_artistic.py): the fitted
 * background frames are pasted onto transparent canvases, one result image
 * per frame starts as the scale-3 QR image, and the overlay loop paints every
 * permitted background pixel onto its frame's result image in place.
 *
 * Images are `array2`s indexed by Pillow's `(x, y)`: `Length0` is the width.
 */
module ArtisticOverlay {
  import opened Wrappers
  import opened ArtisticRules
  import opened SegnoSymbol

  /** An RGBA pixel, as `getpixel` returns it from an RGBA image. */
  datatype Rgba = Rgba(red: int, green: int, blue: int, alpha: int)

  /** The fill of the canvas template `bg_tpl`: transparent red. */
  const Clear := Rgba(255, 0, 0, 0)

  predicate InImage(img: array2<Rgba>, x: int, y: int) {
    0 <= x < img.Length0 && 0 <= y < img.Length1
  }

  /** The images of `imgs`, as a frame. */
  function Images(imgs: seq<array2<Rgba>>): set<array2<Rgba>> {
    set k | 0 <= k < |imgs| :: imgs[k]
  }

  /** No two entries of `imgs` are the same image. */
  predicate Distinct(imgs: seq<array2<Rgba>>) {
    forall a, b :: 0 <= a < b < |imgs| ==> imgs[a] != imgs[b]
  }

  /** No image of `res` is an image of `bgs`. */
  predicate Disjoint(res: seq<array2<Rgba>>, bgs: seq<array2<Rgba>>) {
    forall a, b :: 0 <= a < |res| && 0 <= b < |bgs| ==> res[a] != bgs[b]
  }

  // ---------------------------------------------------------------------------
  // Centring the resized frames (lines 157-164)

  /**
   * Pixel `(x, y)` of a canvas of size `canvas` onto which `img` was pasted at
   * the centring offset: `img`'s pixel inside the pasted rectangle, the
   * template's transparent fill outside it.
   */
  ghost function PastedPixel(img: array2<Rgba>, canvas: Size, x: int, y: int): Rgba
    reads img
    requires img.Length0 <= canvas.width && img.Length1 <= canvas.height
  {
    var px, py := CentreOffset(canvas.width, img.Length0), CentreOffset(canvas.height, img.Length1);
    if px <= x < px + img.Length0 && py <= y < py + img.Length1 then img[x - px, y - py] else Clear
  }

  /** Pastes `img` onto a fresh copy of the transparent template of size `canvas`. */
  method PasteCentred(img: array2<Rgba>, canvas: Size) returns (bg: array2<Rgba>)
    requires img.Length0 <= canvas.width && img.Length1 <= canvas.height
    ensures fresh(bg) && bg.Length0 == canvas.width && bg.Length1 == canvas.height
    ensures forall x, y :: InImage(bg, x, y) ==> bg[x, y] == PastedPixel(img, canvas, x, y)
  {
    bg := new Rgba[canvas.width, canvas.height]((x, y) => Clear);
    var px := CentreOffset(canvas.width, img.Length0);
    var py := CentreOffset(canvas.height, img.Length1);
    forall x, y | px <= x < px + img.Length0 && py <= y < py + img.Length1 {
      bg[x, y] := img[x - px, y - py];
    }
  }

  /**
   * Lines 157-164: every resized frame, in order, becomes a fresh canvas of
   * the maximal background size with the frame pasted at its centre.
   */
  method CentreFrames(resized: seq<array2<Rgba>>, canvas: Size) returns (bgs: seq<array2<Rgba>>)
    requires forall k :: 0 <= k < |resized| ==>
               resized[k].Length0 <= canvas.width && resized[k].Length1 <= canvas.height
    ensures |bgs| == |resized| && Distinct(bgs)
    ensures forall k :: 0 <= k < |bgs| ==>
              fresh(bgs[k]) && bgs[k].Length0 == canvas.width && bgs[k].Length1 == canvas.height
    ensures forall k, x, y :: 0 <= k < |bgs| && InImage(bgs[k], x, y) ==>
              bgs[k][x, y] == PastedPixel(resized[k], canvas, x, y)
  {
    bgs := [];
    for k := 0 to |resized|
      invariant |bgs| == k && Distinct(bgs)
      invariant forall a :: 0 <= a < k ==>
                  fresh(bgs[a]) && bgs[a].Length0 == canvas.width && bgs[a].Length1 == canvas.height
      invariant forall a, x, y :: 0 <= a < k && InImage(bgs[a], x, y) ==>
                  bgs[a][x, y] == PastedPixel(resized[a], canvas, x, y)
    {
      var bg := PasteCentred(resized[k], canvas);
      bgs := bgs + [bg];
    }
  }

  // ---------------------------------------------------------------------------
  // The overlay (lines 165-181)

  /**
   * Frame `bg` overwrites result pixel `(x, y)` when the overlay offsets its
   * writes by `offset`: the background pixel `(x - offset, y - offset)` lies
   * in the module grid, may be painted, and is not fully transparent.
   */
  ghost predicate Painted(m: seq<seq<ModuleType>>, n: nat, offset: int, bg: array2<Rgba>, x: int, y: int)
    reads bg
    requires IsSquare(m, n) && bg.Length0 == 3 * n && bg.Length1 == 3 * n
  {
    var i, j := x - offset, y - offset;
    0 <= i < 3 * n && 0 <= j < 3 * n && MayPaint(m, n, i, j) && bg[i, j].alpha != 0
  }

  /** Result pixel `(x, y)` after the overlay, given its value `before`. */
  ghost function Overlaid(m: seq<seq<ModuleType>>, n: nat, offset: int, bg: array2<Rgba>, x: int, y: int, before: Rgba): Rgba
    reads bg
    requires IsSquare(m, n) && bg.Length0 == 3 * n && bg.Length1 == 3 * n
  {
    if Painted(m, n, offset, bg, x, y) then bg[x - offset, y - offset] else before
  }

  /**
   * What the overlay promises of every result pixel: it is overwritten only
   * from a background pixel with non-zero alpha, which it then equals; a
   * pixel whose background pixel belongs to a kept module or is a cell
   * centre keeps its value.
   */
  lemma OverlaidPixel(m: seq<seq<ModuleType>>, n: nat, offset: int, bg: array2<Rgba>, x: int, y: int, before: Rgba)
    requires IsSquare(m, n) && bg.Length0 == 3 * n && bg.Length1 == 3 * n
    ensures var after := Overlaid(m, n, offset, bg, x, y, before);
            after == before ||
            (0 <= x - offset < 3 * n && 0 <= y - offset < 3 * n &&
             bg[x - offset, y - offset].alpha != 0 && after == bg[x - offset, y - offset])
    ensures 0 <= x - offset < 3 * n && 0 <= y - offset < 3 * n ==>
            (IsKept(PixelModule(m, n, x - offset, y - offset)) || IsCentre(x - offset, y - offset) ||
             bg[x - offset, y - offset].alpha == 0) ==>
            Overlaid(m, n, offset, bg, x, y, before) == before
  {
  }

  /**
   * With the offset taken from the border the QR image was rendered with,
   * a result pixel that shows a function pattern keeps its value, provided
   * the kept modules are symmetric under transposition.
   */
  lemma {:induction false} KeptNeverOverlaid(m: seq<seq<ModuleType>>, n: nat, border: Option<int>, isMicro: bool,
                                            bg: array2<Rgba>, x: int, y: int, before: Rgba)
    requires IsSquare(m, n) && bg.Length0 == 3 * n && bg.Length1 == 3 * n
    requires 0 <= RenderedBorder(border, isMicro) && KeptIsSymmetric(m, n) && 0 <= x && 0 <= y
    requires var r := RenderedModule(m, n, RenderedBorder(border, isMicro), x, y); r.Some? && IsKept(r.value)
    ensures Overlaid(m, n, 3 * RenderedBorder(border, isMicro), bg, x, y, before) == before
  {
    var b := RenderedBorder(border, isMicro);
    if Painted(m, n, 3 * b, bg, x, y) {
      CorrectedOverlayAligned(m, n, border, isMicro, x - 3 * b, y - 3 * b);
      assert false;
    }
  }

  /**
   * The overlay as written keeps the function patterns for every border
   * the caller may pass except 0, where its offset agrees with the
   * rendered border.
   */
  lemma KeptNeverOverlaidAsWritten(m: seq<seq<ModuleType>>, n: nat, border: Option<int>, isMicro: bool,
                                   bg: array2<Rgba>, x: int, y: int, before: Rgba)
    requires IsSquare(m, n) && bg.Length0 == 3 * n && bg.Length1 == 3 * n && border != Some(0)
    requires 0 <= RenderedBorder(border, isMicro) && KeptIsSymmetric(m, n) && 0 <= x && 0 <= y
    requires var r := RenderedModule(m, n, RenderedBorder(border, isMicro), x, y); r.Some? && IsKept(r.value)
    ensures Overlaid(m, n, 3 * OverlayBorderAsWritten(border, isMicro), bg, x, y, before) == before
  {
    KeptNeverOverlaid(m, n, border, isMicro, bg, x, y, before);
  }

  /**
   * The as-written border of an explicit `border=0`, seen on the overlay:
   * the data pixel (27, 0) of a version 1 symbol is painted onto image pixel
   * (39, 12), which shows the top-right separator.
   */
  lemma BorderZeroOverlaid(m: seq<seq<ModuleType>>, bg: array2<Rgba>, before: Rgba)
    requires IsSquare(m, 21) && bg.Length0 == 63 && bg.Length1 == 63
    requires !IsKept(m[9][0]) && m[4][13] == Separator && bg[27, 0].alpha != 0
    ensures RenderedModule(m, 21, RenderedBorder(Some(0), false), 39, 12) == Some(Separator)
    ensures Overlaid(m, 21, 3 * OverlayBorderAsWritten(Some(0), false), bg, 39, 12, before) == bg[27, 0]
  {
    BorderZeroMisplacesOverlay(m);
    assert Painted(m, 21, 12, bg, 39, 12);
  }

  /** Frames of size `3 * n` x `3 * n`, one per result image, disjoint from them. */
  predicate Matches(n: nat, bgs: seq<array2<Rgba>>, res: seq<array2<Rgba>>)
    reads Images(bgs)
  {
    |res| == |bgs| && Distinct(res) && Disjoint(res, bgs) &&
    forall k :: 0 <= k < |bgs| ==> bgs[k].Length0 == 3 * n && bgs[k].Length1 == 3 * n
  }

  /**
   * Lines 178-181, for background pixel `(i, j)`: every frame whose pixel
   * there is not fully transparent writes it into its own result image at
   * `(i + offset, j + offset)`; a point outside the result image is dropped.
   */
  method PaintPixel(n: nat, bgs: seq<array2<Rgba>>, res: seq<array2<Rgba>>, i: int, j: int, offset: int)
    requires Matches(n, bgs, res) && 0 <= i < 3 * n && 0 <= j < 3 * n
    modifies Images(res)
    ensures forall k, x, y :: 0 <= k < |res| && InImage(res[k], x, y) ==>
              res[k][x, y] == if x == i + offset && y == j + offset && bgs[k][i, j].alpha != 0
                              then bgs[k][i, j] else old(res[k][x, y])
  {
    for k := 0 to |bgs|
      invariant forall c, x, y :: 0 <= c < |res| && InImage(res[c], x, y) ==>
                  res[c][x, y] == if c < k && x == i + offset && y == j + offset && bgs[c][i, j].alpha != 0
                                  then bgs[c][i, j] else old(res[c][x, y])
    {
      var fill := bgs[k][i, j];
      if fill.alpha != 0 {
        var x, y := i + offset, j + offset;
        if InImage(res[k], x, y) {
          res[k][x, y] := fill;
        }
      }
    }
  }

  /**
   * Lines 174-181 for row `i` of the module grid: the pixels of a kept module
   * and the cell centres are skipped, every other pixel is painted from each
   * frame.
   */
  method OverlayRow(m: seq<seq<ModuleType>>, n: nat, bgs: seq<array2<Rgba>>, res: seq<array2<Rgba>>, i: int, offset: int)
    requires IsSquare(m, n) && Matches(n, bgs, res) && 0 <= i < 3 * n
    modifies Images(res)
    ensures forall k, x, y :: 0 <= k < |res| && InImage(res[k], x, y) ==>
              res[k][x, y] == if x - offset == i && Painted(m, n, offset, bgs[k], x, y)
                              then bgs[k][x - offset, y - offset] else old(res[k][x, y])
  {
    for j := 0 to 3 * n
      invariant forall k, x, y :: 0 <= k < |res| && InImage(res[k], x, y) ==>
                  res[k][x, y] == if x - offset == i && y - offset < j && Painted(m, n, offset, bgs[k], x, y)
                                  then bgs[k][x - offset, y - offset] else old(res[k][x, y])
    {
      var bit := PixelModule(m, n, i, j);
      if bit in KeepModules {
        continue;
      }
      if !(i % 3 == 1 && j % 3 == 1) {
        PaintPixel(n, bgs, res, i, j, offset);
      }
    }
  }

  /**
   * Lines 173-181: the whole overlay. Result pixel `(x, y)` of image `k`
   * becomes frame `k`'s pixel `(x - offset, y - offset)` exactly when that
   * pixel may be painted and is not fully transparent; every other pixel of
   * every result image keeps its value.
   */
  method Overlay(m: seq<seq<ModuleType>>, n: nat, bgs: seq<array2<Rgba>>, res: seq<array2<Rgba>>, offset: int)
    requires IsSquare(m, n) && Matches(n, bgs, res)
    modifies Images(res)
    ensures forall k, x, y :: 0 <= k < |res| && InImage(res[k], x, y) ==>
              res[k][x, y] == Overlaid(m, n, offset, bgs[k], x, y, old(res[k][x, y]))
  {
    for i := 0 to 3 * n
      invariant forall k, x, y :: 0 <= k < |res| && InImage(res[k], x, y) ==>
                  res[k][x, y] == if x - offset < i && Painted(m, n, offset, bgs[k], x, y)
                                  then bgs[k][x - offset, y - offset] else old(res[k][x, y])
    {
      OverlayRow(m, n, bgs, res, i, offset);
    }
  }

  /** `img.copy()`. */
  method CopyImage(img: array2<Rgba>) returns (c: array2<Rgba>)
    ensures fresh(c) && c.Length0 == img.Length0 && c.Length1 == img.Length1
    ensures forall x, y :: InImage(c, x, y) ==> c[x, y] == img[x, y]
  {
    c := new Rgba[img.Length0, img.Length1];
    forall x, y | 0 <= x < img.Length0 && 0 <= y < img.Length1 {
      c[x, y] := img[x, y];
    }
  }

  /**
   * Lines 165-181: one result image per frame, the first being the QR image
   * itself and the others fresh copies of it, then the overlay with the
   * writes offset by `border * 3`.
   */
  method Compose(m: seq<seq<ModuleType>>, n: nat, qr: array2<Rgba>, bgs: seq<array2<Rgba>>, border: int)
    returns (res: seq<array2<Rgba>>)
    requires IsSquare(m, n) && 1 <= |bgs|
    requires forall k :: 0 <= k < |bgs| ==> bgs[k] != qr && bgs[k].Length0 == 3 * n && bgs[k].Length1 == 3 * n
    modifies qr
    ensures |res| == |bgs| && res[0] == qr && Distinct(res)
    ensures forall k :: 1 <= k < |res| ==> fresh(res[k])
    ensures forall k :: 0 <= k < |res| ==> res[k].Length0 == qr.Length0 && res[k].Length1 == qr.Length1
    ensures forall k, x, y :: 0 <= k < |res| && InImage(res[k], x, y) ==>
              res[k][x, y] == Overlaid(m, n, border * 3, bgs[k], x, y, old(qr[x, y]))
  {
    res := [qr];
    while |res| < |bgs|
      invariant 1 <= |res| <= |bgs| && res[0] == qr && Distinct(res)
      invariant forall k :: 1 <= k < |res| ==> fresh(res[k])
      invariant forall k :: 0 <= k < |res| ==> res[k].Length0 == qr.Length0 && res[k].Length1 == qr.Length1
      invariant forall k, x, y :: 0 <= k < |res| && InImage(res[k], x, y) ==> res[k][x, y] == qr[x, y]
      invariant unchanged(qr)
    {
      var c := CopyImage(qr);
      res := res + [c];
    }
    Overlay(m, n, bgs, res, border * 3);
  }

  /**
   * `write_artistic` with `border=0` on a version 1 QR code, as written: the
   * QR image has no quiet zone (63 x 63 pixels), yet the first result image
   * shows, at the separator pixel (39, 12), the first frame's data pixel
   * (27, 0).
   */
  method ComposeBorderZeroAsWritten(m: seq<seq<ModuleType>>, qr: array2<Rgba>, bgs: seq<array2<Rgba>>)
    returns (res: seq<array2<Rgba>>)
    requires IsSquare(m, 21) && 1 <= |bgs| && qr.Length0 == 63 && qr.Length1 == 63
    requires forall k :: 0 <= k < |bgs| ==> bgs[k] != qr && bgs[k].Length0 == 63 && bgs[k].Length1 == 63
    requires !IsKept(m[9][0]) && m[4][13] == Separator && bgs[0][27, 0].alpha != 0
    modifies qr
    ensures |res| == |bgs| && res[0] == qr && RenderedModule(m, 21, RenderedBorder(Some(0), false), 39, 12) == Some(Separator)
    ensures res[0][39, 12] == bgs[0][27, 0]
  {
    res := Compose(m, 21, qr, bgs, OverlayBorderAsWritten(Some(0), false));
    BorderZeroOverlaid(m, bgs[0], old(qr[39, 12]));
    assert InImage(res[0], 39, 12);
  }
}

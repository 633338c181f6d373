/**
 * `write_pil` of segno_pil.py: validates the mode, scale and border, chooses
 * the image mode ('1', 'P' or 'RGBA'), the fill values and the palette from
 * the two colours, then paints a `scale` x `scale` block for every dark
 * module onto an image filled with the background.
 *
 * Images are `array2`s indexed by Pillow's `(x, y)`: `Length0` is the width.
 */
module SegnoPil {
  import opened Wrappers
  import opened SegnoSymbol
  import opened Arithmetic

  /** A colour tuple, `(R, G, B)` or `(R, G, B, A)`. */
  type Color = seq<int>

  predicate IsColor(c: Color) {
    |c| == 3 || |c| == 4
  }

  /** Pillow image modes this writer produces: '1', 'P' and 'RGBA'. */
  datatype Mode = Mono | Palette | Rgba

  /** The value a pixel is filled with: a colour tuple in mode 'RGBA', an index otherwise. */
  datatype Ink = Colour(color: Color) | Index(index: nat)

  /**
   * segno's colour helpers `invert_color`, `color_is_black` and
   * `color_is_white`; their code is not part of this model.
   */
  datatype ColorOps = ColorOps(invert: Color -> Color, isBlack: Color -> bool, isWhite: Color -> bool)

  /** The `ValueError`s `write_pil` raises. */
  datatype PilError = UnsupportedMode | InvalidScale

  /** `_SUPPORTED_MODES`: autodetection, 'P' or 'RGBA'. */
  const SupportedModes: seq<Option<string>> := [None, Some("P"), Some("RGBA")]

  /** What lines 72-89 decide: the mode, the two fill values and the palette. */
  datatype Colours = Colours(mode: Mode, stroke: Ink, background: Ink, palette: seq<int>)

  /**
   * The background colour after lines 72-75: a transparent background
   * (`None`) becomes the inverted RGB of the stroke, with alpha 0 appended
   * when the stroke has an alpha channel or 'RGBA' was requested.
   */
  function ResolvedBackground(stroke: Color, background: Option<Color>, requested: Option<string>, ops: ColorOps): (bg: Color)
    requires IsColor(stroke)
    requires background.None? ==> |ops.invert(stroke[..3])| == 3
    ensures background.Some? ==> bg == background.value
    ensures background.None? ==>
            3 <= |bg| && bg[..3] == ops.invert(stroke[..3]) &&
            (|bg| == 4 <==> |stroke| == 4 || requested == Some("RGBA")) &&
            (|bg| == 4 ==> bg[3] == 0) && IsColor(bg)
  {
    match background
    case Some(bg) => bg
    case None =>
      var inverted := ops.invert(stroke[..3]);
      if |stroke| == 4 || requested == Some("RGBA") then inverted + [0] else inverted
  }

  /** White on black (line 78); never for a transparent background. */
  predicate IsMirrored(stroke: Color, background: Option<Color>, ops: ColorOps) {
    background.Some? && ops.isWhite(stroke) && ops.isBlack(background.value)
  }

  /** Black on white or white on black (lines 77-79). */
  predicate IsGreyscale(stroke: Color, background: Option<Color>, ops: ColorOps) {
    background.Some? &&
    ((ops.isBlack(stroke) && ops.isWhite(background.value)) || IsMirrored(stroke, background, ops))
  }

  /**
   * Lines 72-89, the decision table. The mode is 'RGBA' exactly when 'RGBA'
   * was requested or a colour has four components; mode '1' exactly for
   * black on white or white on black, both RGB, without a 'P' request, with
   * index 0 for black; otherwise mode 'P', with the palette holding the
   * background first and the stroke second, and indices to match.
   */
  function ChooseColours(stroke: Color, background: Option<Color>, requested: Option<string>, ops: ColorOps): (c: Colours)
    requires requested in SupportedModes && IsColor(stroke)
    requires background.Some? ==> IsColor(background.value)
    requires background.None? ==> |ops.invert(stroke[..3])| == 3
    ensures c.mode == Rgba <==>
            requested == Some("RGBA") || |stroke| == 4 || (background.Some? && |background.value| == 4)
    ensures c.mode == Rgba ==>
            c.stroke == Colour(stroke) && c.background == Colour(ResolvedBackground(stroke, background, requested, ops)) &&
            c.palette == []
    ensures c.mode == Palette ==>
            c.stroke == Index(1) && c.background == Index(0) && |c.palette| == 6 &&
            c.palette[..3] == ResolvedBackground(stroke, background, requested, ops) && c.palette[3..] == stroke
    ensures c.mode == Mono <==>
            requested == None && |stroke| == 3 && background.Some? && |background.value| == 3 &&
            IsGreyscale(stroke, background, ops)
    ensures c.mode == Mono ==>
            c.palette == [] &&
            if IsMirrored(stroke, background, ops) then c.stroke == Index(1) && c.background == Index(0)
            else c.stroke == Index(0) && c.background == Index(1)
  {
    var bg := ResolvedBackground(stroke, background, requested, ops);
    if requested == Some("RGBA") || |stroke| == 4 || |bg| == 4 then
      Colours(Rgba, Colour(stroke), Colour(bg), [])
    else if !IsGreyscale(stroke, background, ops) || requested == Some("P") then
      Colours(Palette, Index(1), Index(0), bg + stroke)
    else if !IsMirrored(stroke, background, ops) then
      Colours(Mono, Index(0), Index(1), [])
    else
      Colours(Mono, Index(1), Index(0), [])
  }

  /** Python's `int()` of a number: truncation toward zero. */
  function Truncate(x: real): (r: int)
    ensures 0.0 <= x ==> r as real <= x < r as real + 1.0
    ensures x < 0.0 ==> r as real - 1.0 < x <= r as real
  {
    if 0.0 <= x then x.Floor else -((-x).Floor)
  }

  /** Everything `write_pil` settles before it draws. */
  datatype Setup = Setup(scale: nat, border: nat, size: Size, colours: Colours)

  /**
   * Lines 61-89 for a symbol of `width` x `height` modules. An unsupported
   * mode fails first; then the scale is truncated and must be positive
   * (`check_valid_scale`); a missing border takes the symbol's default while
   * an explicit 0 is kept; the image has the symbol's size at that scale and
   * border.
   */
  function PrepareImage(width: nat, height: nat, scale: real, border: Option<nat>, defaultBorder: nat,
                        stroke: Color, background: Option<Color>, requested: Option<string>, ops: ColorOps)
    : (r: Result<Setup, PilError>)
    requires IsColor(stroke) && (background.Some? ==> IsColor(background.value))
    requires background.None? ==> |ops.invert(stroke[..3])| == 3
    ensures requested !in SupportedModes ==> r == Failure(UnsupportedMode)
    ensures requested in SupportedModes && Truncate(scale) <= 0 ==> r == Failure(InvalidScale)
    ensures r.Success? <==> requested in SupportedModes && 1 <= Truncate(scale)
    ensures r.Success? ==>
            r.value.scale == Truncate(scale) &&
            (border.Some? ==> r.value.border == border.value) &&
            (border.None? ==> r.value.border == defaultBorder) &&
            r.value.size.width == (width + 2 * r.value.border) * r.value.scale &&
            r.value.size.height == (height + 2 * r.value.border) * r.value.scale &&
            r.value.colours == ChooseColours(stroke, background, requested, ops)
  {
    if requested !in SupportedModes then Failure(UnsupportedMode)
    else
      var s := Truncate(scale);
      if s <= 0 then Failure(InvalidScale)
      else
        var b := if border.None? then defaultBorder else border.value;
        Success(Setup(s, b, SymbolSize(width, height, s, b), ChooseColours(stroke, background, requested, ops)))
  }

  // ---------------------------------------------------------------------------
  // Rasterisation (lines 90-101)

  /** Module `row`, `col` of `matrix` is dark. */
  predicate IsDark(matrix: seq<seq<bool>>, row: int, col: int) {
    0 <= row < |matrix| && 0 <= col < |matrix[row]| && matrix[row][col]
  }

  /**
   * Pixel `(x, y)` lies in the block `rect` fills for module `row`, `col`:
   * `x` in `[(col + border) * scale, (col + border) * scale + scale - 1]`,
   * `y` likewise for `row`.
   */
  predicate InBlock(scale: nat, border: nat, row: int, col: int, x: int, y: int) {
    (col + border) * scale <= x <= (col + border) * scale + scale - 1 &&
    (row + border) * scale <= y <= (row + border) * scale + scale - 1
  }

  /** The module holding pixel coordinate `p`, counted from the end of the quiet zone. */
  function ModuleOf(p: int, scale: nat, border: nat): int
    requires 0 < scale
  {
    p / scale - border
  }

  /** A pixel coordinate lies in module `k`'s block exactly when it belongs to module `k`. */
  lemma BlockOfModule(p: int, k: int, scale: nat, border: nat)
    requires 0 < scale
    ensures (k + border) * scale <= p <= (k + border) * scale + scale - 1 <==> ModuleOf(p, scale, border) == k
  {
    var q := k + border;
    if q * scale <= p <= q * scale + scale - 1 {
      QuotientUnique(p, q, p - q * scale, scale);
    }
    if p / scale == q {
      assert p == q * scale + p % scale;
    }
  }

  /** The block of a dark module covers the pixel exactly when the pixel's module is dark. */
  lemma DarkPixelIffCovered(matrix: seq<seq<bool>>, scale: nat, border: nat, x: int, y: int)
    requires 0 < scale
    ensures IsDark(matrix, ModuleOf(y, scale, border), ModuleOf(x, scale, border)) <==>
            exists row, col :: IsDark(matrix, row, col) && InBlock(scale, border, row, col, x, y)
  {
    var row, col := ModuleOf(y, scale, border), ModuleOf(x, scale, border);
    BlockOfModule(x, col, scale, border);
    BlockOfModule(y, row, scale, border);
    if exists r, c :: IsDark(matrix, r, c) && InBlock(scale, border, r, c, x, y) {
      var r, c :| IsDark(matrix, r, c) && InBlock(scale, border, r, c, x, y);
      BlockOfModule(x, c, scale, border);
      BlockOfModule(y, r, scale, border);
    }
  }

  /** The block of module `row`, `col` lies inside an image of the symbol's size. */
  lemma BlockInImage(scale: nat, border: nat, rows: nat, cols: nat, row: nat, col: nat)
    requires row < rows && col < cols
    ensures (col + border) * scale + scale <= (cols + 2 * border) * scale
    ensures (row + border) * scale + scale <= (rows + 2 * border) * scale
  {
    assert (col + border) * scale + scale == (col + border + 1) * scale;
    assert (row + border) * scale + scale == (row + border + 1) * scale;
    MulMonotone(col + border + 1, cols + 2 * border, scale);
    MulMonotone(row + border + 1, rows + 2 * border, scale);
  }

  /** The pixel value the rasteriser leaves at `(x, y)`. */
  function RasterPixel(matrix: seq<seq<bool>>, scale: nat, border: nat, stroke: Ink, background: Ink, x: int, y: int): Ink
    requires 0 < scale
  {
    if IsDark(matrix, ModuleOf(y, scale, border), ModuleOf(x, scale, border)) then stroke else background
  }

  /** The block `rect` fills for module `row`, `col` holds exactly the pixels of that module. */
  lemma BlockIsModule(scale: nat, border: nat, row: int, col: int)
    requires 0 < scale
    ensures forall x, y :: InBlock(scale, border, row, col, x, y) <==>
              ModuleOf(y, scale, border) == row && ModuleOf(x, scale, border) == col
  {
    forall x, y
      ensures InBlock(scale, border, row, col, x, y) <==>
              ModuleOf(y, scale, border) == row && ModuleOf(x, scale, border) == col
    {
      BlockOfModule(x, col, scale, border);
      BlockOfModule(y, row, scale, border);
    }
  }

  /**
   * One `rect` call of line 101: the block of module `row`, `col` becomes
   * `stroke`, every other pixel keeps its value.
   */
  method FillBlock(img: array2<Ink>, scale: nat, border: nat, row: nat, col: nat, stroke: Ink)
    requires (col + border) * scale + scale <= img.Length0 && (row + border) * scale + scale <= img.Length1
    modifies img
    ensures forall x, y :: 0 <= x < img.Length0 && 0 <= y < img.Length1 ==>
              img[x, y] == if InBlock(scale, border, row, col, x, y) then stroke else old(img[x, y])
  {
    var x0, y0 := (col + border) * scale, (row + border) * scale;
    forall x, y | x0 <= x < x0 + scale && y0 <= y < y0 + scale {
      img[x, y] := stroke;
    }
  }

  /**
   * Lines 90-101: an image of the symbol's size filled with `background`,
   * then a `scale` x `scale` block of `stroke` for every dark module, offset
   * by the border. A pixel is `stroke` exactly when its module is dark; every
   * other pixel, the whole quiet zone included, keeps the background.
   */
  method Rasterise(matrix: seq<seq<bool>>, width: nat, scale: nat, border: nat, stroke: Ink, background: Ink)
    returns (img: array2<Ink>)
    requires 0 < scale && forall r :: 0 <= r < |matrix| ==> |matrix[r]| == width
    ensures fresh(img)
    ensures img.Length0 == (width + 2 * border) * scale && img.Length1 == (|matrix| + 2 * border) * scale
    ensures forall x, y :: 0 <= x < img.Length0 && 0 <= y < img.Length1 ==>
              img[x, y] == RasterPixel(matrix, scale, border, stroke, background, x, y)
  {
    var size := SymbolSize(width, |matrix|, scale, border);
    img := new Ink[size.width, size.height]((x, y) => background);
    for row := 0 to |matrix|
      invariant forall x, y :: 0 <= x < img.Length0 && 0 <= y < img.Length1 ==>
                  img[x, y] == if ModuleOf(y, scale, border) < row
                               then RasterPixel(matrix, scale, border, stroke, background, x, y) else background
    {
      for col := 0 to width
        invariant forall x, y :: 0 <= x < img.Length0 && 0 <= y < img.Length1 ==>
                    img[x, y] == if ModuleOf(y, scale, border) < row ||
                                    (ModuleOf(y, scale, border) == row && ModuleOf(x, scale, border) < col)
                                 then RasterPixel(matrix, scale, border, stroke, background, x, y) else background
      {
        if !matrix[row][col] {
          continue;
        }
        BlockInImage(scale, border, |matrix|, width, row, col);
        FillBlock(img, scale, border, row, col, stroke);
        BlockIsModule(scale, border, row, col);
      }
    }
  }

  /** A rendered image: the settled parameters and the pixels. */
  datatype Picture = Picture(setup: Setup, pixels: array2<Ink>)

  /**
   * `write_pil` for a symbol of `width` x `|matrix|` modules: the errors of
   * `PrepareImage`, or an image of the symbol's size whose pixels are the
   * stroke fill exactly where a dark module's block lies.
   */
  method WritePil(matrix: seq<seq<bool>>, width: nat, scale: real, border: Option<nat>, defaultBorder: nat,
                  stroke: Color, background: Option<Color>, requested: Option<string>, ops: ColorOps)
    returns (r: Result<Picture, PilError>)
    requires forall row :: 0 <= row < |matrix| ==> |matrix[row]| == width
    requires IsColor(stroke) && (background.Some? ==> IsColor(background.value))
    requires background.None? ==> |ops.invert(stroke[..3])| == 3
    ensures var setup := PrepareImage(width, |matrix|, scale, border, defaultBorder, stroke, background, requested, ops);
            match r
            case Failure(e) => setup == Failure(e)
            case Success(p) =>
              setup == Success(p.setup) && fresh(p.pixels) &&
              p.pixels.Length0 == p.setup.size.width && p.pixels.Length1 == p.setup.size.height &&
              forall x, y :: 0 <= x < p.pixels.Length0 && 0 <= y < p.pixels.Length1 ==>
                p.pixels[x, y] == RasterPixel(matrix, p.setup.scale, p.setup.border,
                                              p.setup.colours.stroke, p.setup.colours.background, x, y)
  {
    var setup := PrepareImage(width, |matrix|, scale, border, defaultBorder, stroke, background, requested, ops);
    match setup
    case Failure(e) =>
      r := Failure(e);
    case Success(s) =>
      var pixels := Rasterise(matrix, width, s.scale, s.border, s.colours.stroke, s.colours.background);
      r := Success(Picture(s, pixels));
  }

  /** `scale=2.5` renders like `scale=2` (tests.py, `test_pil_scale_float`). */
  lemma FractionalScaleTruncates(width: nat, height: nat, border: Option<nat>, defaultBorder: nat,
                                  stroke: Color, background: Option<Color>, requested: Option<string>, ops: ColorOps)
    requires IsColor(stroke) && (background.Some? ==> IsColor(background.value))
    requires background.None? ==> |ops.invert(stroke[..3])| == 3
    ensures Truncate(2.5) == 2
    ensures PrepareImage(width, height, 2.5, border, defaultBorder, stroke, background, requested, ops) ==
            PrepareImage(width, height, 2.0, border, defaultBorder, stroke, background, requested, ops)
  {
  }
}

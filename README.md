# qrcode-artistic in Dafny

A model of the two writers of the qrcode-artistic plugin for the segno QR
encoder, with proofs of what they promise.

- `write_artistic` (qrcode_artistic.py) renders a QR code at scale 3, so
  every module is a 3 x 3 pixel cell. It fits and centres a (possibly
  animated) background on a transparent canvas the size of the symbol
  without quiet zone. Then, for every frame, it paints the frame's non-transparent
  pixels onto the QR image (the first frame) or a copy of it (every
  other frame). It skips two kinds of background pixel:
  those of a function pattern (finder, separator, timing and alignment
  patterns, section 6.3 of ISO/IEC 18004:2015) and the centre pixel of each
  cell. The QR image's function patterns therefore stay intact because
  those patterns are symmetric under transposition (see below). This holds
  unless the caller passes `border=0`: then the writes land 12 pixels off
  (6 for Micro QR) and can cover a function pattern (see "## Findings"). It
  finally resizes the result to the requested scale and reconciles the image
  mode.
- `write_pil` (segno_pil.py) validates the mode and the scale and defaults the
  border. A decision table picks mode '1', 'P' or 'RGBA', the fill values and
  the palette from the two colours. It then paints a `scale` x `scale` block for
  every dark module onto an image filled with the background.

Files:

- `wrappers.dfy` (module `Wrappers`): `Option` and `Result`.
- `arithmetic.dfy` (module `Arithmetic`): facts about integer division and
  truncation that both writers use.
- `segno_symbol.dfy` (module `SegnoSymbol`): what the model assumes of segno's
  `symbol_size`.
- `artistic_rules.dfy` (module `ArtisticRules`): the pure rules of
  `write_artistic`. These are the module types, the kept set, the centre
  pixel, the border defaults, fitting and centring, the extension test and
  the mode reconciliation.
- `artistic_overlay.dfy` (module `ArtisticOverlay`): the in-place part of
  `write_artistic`, as methods over `array2` images. It covers pasting the
  frames, copying the QR image and the overlay loop.
- `segno_pil.dfy` (module `SegnoPil`): `write_pil`, with the decision table
  as a function and the rasterisation loop as a method.

Images are `array2`s indexed by Pillow's `(x, y)`, so `Length0` is the width.
The overlay keeps the source's coordinate convention. The row index `i` of
`matrix_iter` is used as `x` both to read the background and to write the
result. So a pixel is protected by the module at the transposed position of
the rendered image. `CorrectedOverlayAligned` shows that this is harmless
whenever the kept modules are symmetric under transposition, as the function
patterns of QR and Micro QR symbols are.

Assumptions about code that is not part of this model:

- `qrcode.matrix_iter(scale=3, border=0, verbose=True)` yields, at row `i` and
  column `j`, the type of module `matrix[i / 3][j / 3]` (`PixelModule`).
- `qrcode.symbol_size(scale, border)` is `((w + 2 * border) * scale, (h + 2 * border) * scale)`
  (`SymbolSize`).
- segno's module matrix for the overlay is square (every QR and Micro QR
  symbol is), so `getpixel((i, j))` stays inside the background canvas.
- The scale-3 QR image is rendered with the caller's `border`. segno applies
  its default (4 for QR, 2 for Micro QR) only to `None` (`RenderedBorder`).
- `utils.check_valid_scale` rejects a scale of 0 or less.
- `colors.invert_color`, `colors.color_is_black` and `colors.color_is_white`
  are parameters (`ColorOps`). Inverting an RGB colour yields an RGB colour.
- `pil_color` yields 3- or 4-component tuples (`IsColor`). The stroke colour
  is never `None`.
- ImageDraw's `point` drops a point outside the image. An RGBA `paste`
  without mask copies the pasted pixels. The resized frames reach the paste
  as RGBA pixels.

## Model

| member | source | states |
|---|---|---|
| `ArtisticRules.IsKept` | qrcode_artistic.py:170-172 | a module type is kept exactly when it is a function pattern of section 6.3 of ISO/IEC 18004:2015: finder dark or light, separator, alignment dark or light, timing dark or light |
| `ArtisticRules.CentreOfCell` | qrcode_artistic.py:177 | of the nine pixels of every 3 x 3 module cell, exactly the one at offset (1, 1) is the protected centre |
| `ArtisticRules.RenderedBorder` | qrcode_artistic.py:126 | the QR image's quiet zone is the caller's border when one is given, 0 included, and the default only for `None` |
| `ArtisticRules.OverlayBorderAsWritten` | qrcode_artistic.py:150 | `None` and an explicit 0 both become the default, 2 for Micro QR and 4 otherwise; any other border is kept; so the result is never 0 and agrees with the border the QR image was rendered with exactly when the caller did not pass 0 |
| `ArtisticRules.BorderZeroMisplacesOverlay` | qrcode_artistic.py:150-181 | with `border=0`, the as-written offset is 12 pixels: the data pixel (27, 0) of a version 1 symbol is painted onto image pixel (39, 12), which shows the top-right separator |
| `ArtisticRules.CorrectedOverlayAligned` | qrcode_artistic.py:169-181 | with the offset taken from the rendered border, every paintable pixel lands inside the image and outside the quiet zone, on the module at the transposed position, and never on a function pattern when those are symmetric under transposition |
| `ArtisticRules.FitSize` | qrcode_artistic.py:153-156 | the fitted background never exceeds the maximal size on either axis and reaches it on at least one |
| `ArtisticRules.FitSizeByIntegers` | qrcode_artistic.py:155-156 | the fitted size in integers: the axis with the smaller ratio is filled, the other is scaled by that ratio and truncated |
| `ArtisticRules.FinalSizeIsSymbolSize` | qrcode_artistic.py:182-186 | for a scale other than 3, the final resize yields exactly `symbol_size(scale, border)` |
| `ArtisticRules.CentreOffset` | qrcode_artistic.py:162 | the paste offset is non-negative, the frame ends inside the canvas, and the margin before the frame equals the margin after it or exceeds it by one |
| `ArtisticRules.LastIndexOf` | qrcode_artistic.py:139 | `rindex`: the index found holds the character and none after it does; `None` (Python's `ValueError`) when the character does not occur |
| `ArtisticRules.TargetSupportsAnimation` | qrcode_artistic.py:139 | the extension test fails with `ValueError` exactly when the target has no `'.'` |
| `ArtisticRules.AnimationTargetIffSuffix` | qrcode_artistic.py:139 | the target allows animation exactly when it ends in `.gif`, `.png` or `.webp`, case-sensitively |
| `ArtisticRules.IsAnimated` | qrcode_artistic.py:139-143 | animation needs both a suitable target and a background reporting `is_animated`; a background without that attribute is still; a target without `'.'` raises |
| `ArtisticRules.OutputConversion` | qrcode_artistic.py:188-191 | the result ends in the explicit mode if one was given, else in the background's mode; the RGBA images are left unconverted exactly when no mode was given and the background is RGBA |
| `ArtisticOverlay.PasteCentred` | qrcode_artistic.py:157-163 | a fresh canvas of the maximal size holds the frame inside the centred rectangle and the template's transparent red elsewhere |
| `ArtisticOverlay.CentreFrames` | qrcode_artistic.py:157-164 | one fresh, distinct canvas per resized frame, in order, each the centred paste of that frame |
| `ArtisticOverlay.KeptNeverOverlaid` | qrcode_artistic.py:169-181 | with the offset taken from the rendered border and kept modules symmetric under transposition, a result pixel that shows a function pattern keeps its value |
| `ArtisticOverlay.KeptNeverOverlaidAsWritten` | qrcode_artistic.py:150-181 | with the border as written and any caller border other than 0, a result pixel that shows a function pattern keeps its value, provided the kept modules are symmetric under transposition |
| `ArtisticOverlay.BorderZeroOverlaid` | qrcode_artistic.py:150-181 | with `border=0` as written, the overlay sets image pixel (39, 12), which shows the top-right separator of a version 1 symbol, to the background's data pixel (27, 0) |
| `ArtisticOverlay.OverlaidPixel` | qrcode_artistic.py:175-181 | a result pixel changes only to a background pixel with non-zero alpha, which it then equals; a pixel of a kept module, a cell centre or a transparent background pixel keeps its value |
| `ArtisticOverlay.PaintPixel` | qrcode_artistic.py:178-181 | for one background pixel, each frame with non-zero alpha there writes it into its own result image at the pixel shifted by the offset; nothing else changes |
| `ArtisticOverlay.OverlayRow` | qrcode_artistic.py:174-181 | after one row, exactly the painted pixels of that row are overwritten in every result image |
| `ArtisticOverlay.Overlay` | qrcode_artistic.py:173-181 | result image k differs from its old value only at pixels painted from frame k, shifted by the offset, and holds that frame's pixel exactly; all other pixels are unchanged |
| `ArtisticOverlay.CopyImage` | qrcode_artistic.py:166 | a fresh image of the same size and pixels |
| `ArtisticOverlay.ComposeBorderZeroAsWritten` | qrcode_artistic.py:150-181 | composing a version 1 symbol with `border=0`, as written: the first result image holds, at the separator pixel (39, 12), the first frame's data pixel (27, 0) |
| `ArtisticOverlay.Compose` | qrcode_artistic.py:165-181 | one result image per frame, the first the QR image itself and the others fresh copies, each the old QR image overlaid with its own frame at offset `border * 3` |
| `SegnoSymbol.SymbolSize` | segno_pil.py:67 | the assumed segno formula `((w + 2 * border) * scale, (h + 2 * border) * scale)`, which is non-negative for a non-negative scale and border |
| `SegnoPil.ResolvedBackground` | segno_pil.py:72-75 | a transparent background becomes the inverted RGB of the stroke, with alpha 0 appended exactly when the stroke has four components or 'RGBA' was requested; any other background is kept |
| `SegnoPil.ChooseColours` | segno_pil.py:72-89 | the mode is 'RGBA' exactly when requested or a colour has four components; mode '1' exactly for black on white or white on black, both RGB, with no 'P' request, and its indices are (stroke 0, background 1), swapped when mirrored; otherwise 'P' with palette background then stroke, and indices 1 and 0 |
| `SegnoPil.Truncate` | segno_pil.py:64 | `int()` truncates toward zero |
| `SegnoPil.PrepareImage` | segno_pil.py:61-89 | an unsupported mode fails first, then a truncated scale below 1; otherwise the scale is the truncated one, a missing border takes the default while 0 is kept, and the size is the symbol's size, and the colours are those of the decision table |
| `SegnoPil.BlockOfModule` | segno_pil.py:99-101 | a pixel coordinate lies in the block of module k exactly when its module index is k |
| `SegnoPil.BlockIsModule` | segno_pil.py:99-101 | the pixels of the block `rect` fills for a module are exactly the pixels belonging to that module |
| `SegnoPil.FillBlock` | segno_pil.py:99-101 | one `rect` call sets that module's block to the stroke and leaves every other pixel unchanged |
| `SegnoPil.DarkPixelIffCovered` | segno_pil.py:95-101 | a pixel's module is dark exactly when some dark module's block covers the pixel |
| `SegnoPil.BlockInImage` | segno_pil.py:90-101 | every module's block lies inside the image of the symbol's size |
| `SegnoPil.Rasterise` | segno_pil.py:90-101 | a fresh image of the symbol's size whose pixel is the stroke fill exactly where the pixel's module is dark, and the background fill elsewhere, the whole quiet zone included |
| `SegnoPil.WritePil` | segno_pil.py:56-102 | the errors of the validation, or a picture whose settings are those of `PrepareImage` and whose pixels are the rasterisation of the matrix with them |
| `SegnoPil.FractionalScaleTruncates` | tests.py:73-78 | for every symbol, border, colour and mode, scale 2.5 gives the same validation result and setup as scale 2; `WritePil`'s pixels are a function of that setup, so the images agree too |

## Left out

- Pillow and segno I/O is opaque and not modelled: `Image.open`,
  `ImageSequence`, LANCZOS resampling, `convert`, `save` and the GIF, PNG and
  WEBP encoders with their durations and loop count (qrcode_artistic.py:135,
  144-149, 159, 187, 189-197). `Compose` receives the RGBA QR image and the
  centred frames. `CentreFrames` receives the resized frames.
- `write_pil` of qrcode_artistic.py (lines 21-79) is not modelled. It only asks
  segno for a PNG and reopens it; `RenderedBorder` states the one fact the
  overlay relies on.
- How many frames `bg_images` holds is not modelled. The opened image is put
  before a full iteration of its frames (lines 137 and 148).
- `FitSize`, `FitSizeByIntegers`, `FinalSizeIsSymbolSize`: the ratio is computed
  in exact rational arithmetic. Python's floating-point division may make a
  truncated size one pixel smaller.
- `TargetSupportsAnimation`: a file-like `target`, which has no `rindex`, is not
  modelled; targets are strings.
- `ChooseColours`: a stroke colour of `None`, which makes Python raise
  `TypeError`, is not modelled. Neither is a colour tuple that is not RGB or
  RGBA.
- `PrepareImage`: a negative border, which segno's `symbol_size` rejects, is
  not modelled (borders are `nat`).
- The pixel colours that Pillow's `Image.new` and `rectangle` store for an ink
  in each mode are not modelled; pixels hold the ink itself (`Ink`).
- The decodability of the result by a QR reader is not modelled.

## Findings

| source | as written | input that shows it | evidently intended | confidence | as-written member | corrected member |
|---|---|---|---|---|---|---|
| qrcode_artistic.py:150 | `border if border else default`: the falsy test turns an explicit `border=0` into 4 (2 for Micro QR), although the QR image was rendered with no quiet zone | `border=0` on a version 1 QR code: the overlay writes 12 pixels right of and below their cells, e.g. data pixel (27, 0) onto the top-right separator at (39, 12), and clips the last 4 module rows and columns of the background | `border if border is not None else default`, the border the QR image was rendered with | high, not executed | `ArtisticRules.BorderZeroMisplacesOverlay` | `ArtisticRules.CorrectedOverlayAligned` |

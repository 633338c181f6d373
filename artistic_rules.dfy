/**
 * The decision and arithmetic rules of `write_artistic` (qrcode_artistic.py):
 * which modules of the QR code the background may show through, which border
 * the overlay uses, how a background frame is fitted and centred, whether the
 * output is animated and which image mode it is saved in.
 *
 * Images are indexed by Pillow's `(x, y)`; a symbol of `n` x `n` modules
 * rendered at scale 3 with a quiet zone of `b` modules is `3 * (n + 2 * b)`
 * pixels wide and high.
 */
module ArtisticRules {
  import opened Wrappers
  import opened SegnoSymbol
  import opened Arithmetic

  /** The category the QR encoder reports for a module (segno's `consts.TYPE_*`). */
  datatype ModuleType =
    | FinderDark | FinderLight | Separator
    | AlignmentDark | AlignmentLight
    | TimingDark | TimingLight
    | FormatDark | FormatLight
    | VersionDark | VersionLight
    | DataDark | DataLight
    | DarkModule | QuietZone

  /**
   * The function patterns of section 6.3 of ISO/IEC 18004:2015: finder
   * patterns, separators, timing patterns and alignment patterns.
   */
  predicate IsFunctionPattern(t: ModuleType) {
    match t
    case FinderDark | FinderLight | Separator => true
    case AlignmentDark | AlignmentLight => true
    case TimingDark | TimingLight => true
    case _ => false
  }

  /** The module types the overlay never paints over (`keep_modules`). */
  const KeepModules: seq<ModuleType> :=
    [FinderDark, FinderLight, Separator, AlignmentDark, AlignmentLight, TimingDark, TimingLight]

  predicate IsKept(t: ModuleType)
    ensures IsKept(t) <==> IsFunctionPattern(t)
  {
    t in KeepModules
  }

  /** All rows of `m` have `n` modules and there are `n` rows. */
  predicate IsSquare<T>(m: seq<seq<T>>, n: nat) {
    |m| == n && forall r :: 0 <= r < n ==> |m[r]| == n
  }

  /**
   * What `matrix_iter(scale=3, border=0, verbose=True)` yields at row `i`,
   * column `j`: the type of the module whose 3 x 3 cell holds that pixel.
   */
  function PixelModule(m: seq<seq<ModuleType>>, n: nat, i: int, j: int): ModuleType
    requires IsSquare(m, n) && 0 <= i < 3 * n && 0 <= j < 3 * n
  {
    m[i / 3][j / 3]
  }

  /** The centre pixel of a 3 x 3 module cell. */
  predicate IsCentre(i: int, j: int) {
    i % 3 == 1 && j % 3 == 1
  }

  /** Exactly one pixel of every 3 x 3 module cell is its centre. */
  lemma CentreOfCell(row: nat, col: nat, di: int, dj: int)
    requires 0 <= di < 3 && 0 <= dj < 3
    ensures IsCentre(3 * row + di, 3 * col + dj) <==> di == 1 && dj == 1
  {
    assert (3 * row + di) % 3 == di;
    assert (3 * col + dj) % 3 == dj;
  }

  /**
   * The overlay may paint the background at scale-3 pixel `(i, j)` of the
   * module grid: its module is not a function pattern and it is not the
   * centre of its cell.
   */
  predicate MayPaint(m: seq<seq<ModuleType>>, n: nat, i: int, j: int)
    requires IsSquare(m, n) && 0 <= i < 3 * n && 0 <= j < 3 * n
  {
    !IsKept(PixelModule(m, n, i, j)) && !IsCentre(i, j)
  }

  /**
   * The module that the scale-3 QR image with a quiet zone of `b` modules
   * shows at pixel `(x, y)`: row `y / 3 - b`, column `x / 3 - b`; `None` in
   * the quiet zone.
   */
  function RenderedModule(m: seq<seq<ModuleType>>, n: nat, b: int, x: int, y: int): (r: Option<ModuleType>)
    requires IsSquare(m, n) && 0 <= x && 0 <= y
    ensures r.Some? <==> 0 <= y / 3 - b < n && 0 <= x / 3 - b < n
  {
    var row, col := y / 3 - b, x / 3 - b;
    if 0 <= row < n && 0 <= col < n then Some(m[row][col]) else None
  }

  /**
   * The kept modules of `m` are symmetric under transposition, as the
   * function patterns of every QR and Micro QR symbol are.
   */
  predicate KeptIsSymmetric(m: seq<seq<ModuleType>>, n: nat)
    requires IsSquare(m, n)
  {
    forall r, c :: 0 <= r < n && 0 <= c < n ==> (IsKept(m[r][c]) <==> IsKept(m[c][r]))
  }

  // ---------------------------------------------------------------------------
  // Border

  /** segno's recommended quiet zone: 2 modules for Micro QR, 4 for QR. */
  function DefaultBorder(isMicro: bool): nat {
    if isMicro then 2 else 4
  }

  /**
   * The quiet zone the scale-3 QR image is rendered with: the caller's
   * `border` is passed on unchanged and only `None` takes the default.
   */
  function RenderedBorder(border: Option<int>, isMicro: bool): (b: int)
    ensures border.Some? ==> b == border.value
    ensures border.None? ==> b == DefaultBorder(isMicro)
  {
    border.GetOr(DefaultBorder(isMicro))
  }

  /**
   * The border the overlay offsets its writes by, as written: a falsy test,
   * so `None` and `0` both take the default.
   */
  function OverlayBorderAsWritten(border: Option<int>, isMicro: bool): (b: int)
    ensures border.None? || border == Some(0) ==> b == DefaultBorder(isMicro)
    ensures border.Some? && border.value != 0 ==> b == border.value
    ensures b != 0
    ensures b == RenderedBorder(border, isMicro) <==> border != Some(0)
  {
    match border
    case Some(v) => if v != 0 then v else DefaultBorder(isMicro)
    case None => DefaultBorder(isMicro)
  }

  /**
   * With `border=0` on a version 1 QR code (21 x 21 modules, data at row 9,
   * column 0, the top-right separator at row 4, column 13), the overlay as
   * written paints pixel (27, 0) of the module grid, a data pixel, onto
   * pixel (39, 12) of the QR image, which shows the separator.
   */
  lemma BorderZeroMisplacesOverlay(m: seq<seq<ModuleType>>)
    requires IsSquare(m, 21)
    requires !IsKept(m[9][0]) && m[4][13] == Separator
    ensures MayPaint(m, 21, 27, 0)
    ensures 3 * OverlayBorderAsWritten(Some(0), false) == 12
    ensures RenderedModule(m, 21, RenderedBorder(Some(0), false), 27 + 12, 0 + 12) == Some(Separator)
  {
  }

  /**
   * With the offset taken from the border the QR image was rendered with,
   * every pixel the overlay may paint lands inside the symbol (never in the
   * quiet zone, never outside the image), on the module at the transposed
   * position (the row index is used as x), and, when the kept modules are
   * symmetric, never on a function pattern.
   */
  lemma CorrectedOverlayAligned(m: seq<seq<ModuleType>>, n: nat, border: Option<int>, isMicro: bool, i: int, j: int)
    requires IsSquare(m, n) && 0 <= RenderedBorder(border, isMicro)
    requires 0 <= i < 3 * n && 0 <= j < 3 * n && MayPaint(m, n, i, j)
    ensures var b := RenderedBorder(border, isMicro);
            0 <= i + 3 * b < 3 * (n + 2 * b) && 0 <= j + 3 * b < 3 * (n + 2 * b) &&
            RenderedModule(m, n, b, i + 3 * b, j + 3 * b) == Some(m[j / 3][i / 3])
    ensures KeptIsSymmetric(m, n) ==>
            var b := RenderedBorder(border, isMicro);
            RenderedModule(m, n, b, i + 3 * b, j + 3 * b).Some? &&
            !IsKept(RenderedModule(m, n, b, i + 3 * b, j + 3 * b).value)
  {
    var b := RenderedBorder(border, isMicro);
    assert (i + 3 * b) / 3 == i / 3 + b;
    assert (j + 3 * b) / 3 == j / 3 + b;
    assert !IsKept(m[i / 3][j / 3]);
  }

  // ---------------------------------------------------------------------------
  // Fitting and centring the background

  function MinReal(a: real, b: real): real {
    if a <= b then a else b
  }

  /** Truncating `k` times the ratio `a / b` gives the integer quotient of `k * a` by `b`. */
  lemma ScaledFloor(k: nat, a: nat, b: int)
    requires 0 < b
    ensures (k as real * (a as real / b as real)).Floor == k * a / b
  {
    assert k as real * (a as real / b as real) == (k * a) as real / b as real;
    FloorOfQuotient(k * a, b);
  }

  /** Comparing the two ratios of the fit by cross-multiplication. */
  lemma RatioOrder(mw: nat, mh: nat, w: int, h: int)
    requires 0 < w && 0 < h
    ensures mw as real / w as real <= mh as real / h as real <==> mw * h <= mh * w
  {
    assert mw as real / w as real - mh as real / h as real == (mw * h - mh * w) as real / (w * h) as real;
  }

  /**
   * `ratio = min(max_w / w, max_h / h)` then `(int(w * ratio), int(h * ratio))`,
   * in exact arithmetic: the fitted size lies within the maximum on both
   * axes and reaches it on at least one.
   */
  function FitSize(maxSize: Size, size: Size): (r: Size)
    requires 0 <= maxSize.width && 0 <= maxSize.height && 0 < size.width && 0 < size.height
    ensures 0 <= r.width <= maxSize.width && 0 <= r.height <= maxSize.height
    ensures r.width == maxSize.width || r.height == maxSize.height
  {
    var w, h := size.width as real, size.height as real;
    var ratioW, ratioH := maxSize.width as real / w, maxSize.height as real / h;
    var ratio := MinReal(ratioW, ratioH);
    assert w * ratioW == maxSize.width as real;
    assert h * ratioH == maxSize.height as real;
    assert w * ratio <= maxSize.width as real;
    assert h * ratio <= maxSize.height as real;
    Size((w * ratio).Floor, (h * ratio).Floor)
  }

  /**
   * The fitted size by integers alone: the axis with the smaller ratio is
   * filled and the other is scaled by that ratio and truncated.
   */
  lemma FitSizeByIntegers(maxSize: Size, size: Size)
    requires 0 <= maxSize.width && 0 <= maxSize.height && 0 < size.width && 0 < size.height
    ensures FitSize(maxSize, size) ==
            if maxSize.width * size.height <= maxSize.height * size.width
            then Size(maxSize.width, size.height * maxSize.width / size.width)
            else Size(size.width * maxSize.height / size.height, maxSize.height)
  {
    var mw, mh, w, h := maxSize.width, maxSize.height, size.width, size.height;
    RatioOrder(mw, mh, w, h);
    if mw * h <= mh * w {
      ScaledFloor(w, mw, w);
      ScaledFloor(h, mw, w);
      CancelFactor(mw, w);
    } else {
      ScaledFloor(w, mh, h);
      ScaledFloor(h, mh, h);
      CancelFactor(mh, h);
    }
  }

  /**
   * The final resize for a scale other than 3 fits the border-0 scale-3
   * size into `symbol_size(scale, border)`, so the output has exactly the
   * symbol's size at the requested scale and border.
   */
  lemma FinalSizeIsSymbolSize(n: nat, scale: nat, border: nat)
    requires 0 < n
    ensures FitSize(SymbolSize(n, n, scale, border), SymbolSize(n, n, 3, 0)) == SymbolSize(n, n, scale, border)
  {
    var target := SymbolSize(n, n, scale, border);
    FitSizeByIntegers(target, SymbolSize(n, n, 3, 0));
    CancelFactor(target.width, 3 * n);
  }

  /** Python's `math.ceil`. */
  function Ceil(x: real): (r: int)
    ensures x <= r as real < x + 1.0
  {
    -((-x).Floor)
  }

  /**
   * `ceil((max - size) / 2)`: where a fitted frame of length `len` is pasted
   * on a canvas of length `maxLen`. The frame lies inside the canvas and the
   * margin before it equals the margin after it or exceeds it by one pixel.
   */
  function CentreOffset(maxLen: int, len: int): (pos: int)
    requires 0 <= len <= maxLen
    ensures 0 <= pos && pos + len <= maxLen
    ensures pos == maxLen - len - pos || pos == maxLen - len - pos + 1
  {
    Ceil((maxLen - len) as real / 2.0)
  }

  // ---------------------------------------------------------------------------
  // Animation and output mode

  datatype Error = ValueError

  /** `s.rindex(c)`, with `None` where Python raises `ValueError`. */
  function LastIndexOf(s: string, c: char): (r: Option<nat>)
    ensures r.Some? ==> r.value < |s| && s[r.value] == c && forall k :: r.value < k < |s| ==> s[k] != c
    ensures r.None? ==> forall k :: 0 <= k < |s| ==> s[k] != c
  {
    if |s| == 0 then None
    else if s[|s| - 1] == c then Some(|s| - 1)
    else LastIndexOf(s[..|s| - 1], c)
  }

  /** The target extensions that select animated output (case-sensitive). */
  const AnimatedExtensions: seq<string> := ["gif", "png", "webp"]

  /**
   * `target[target.rindex('.') + 1:] in ('gif', 'png', 'webp')`; a target
   * without a `'.'` raises.
   */
  function TargetSupportsAnimation(target: string): (r: Result<bool, Error>)
    ensures r.Failure? <==> '.' !in target
  {
    match LastIndexOf(target, '.')
    case None => Failure(ValueError)
    case Some(k) => Success(target[k + 1..] in AnimatedExtensions)
  }

  predicate EndsWith(s: string, suffix: string) {
    |suffix| <= |s| && s[|s| - |suffix|..] == suffix
  }

  /** The target selects animated output exactly when it ends in `.gif`, `.png` or `.webp`. */
  lemma AnimationTargetIffSuffix(target: string)
    ensures TargetSupportsAnimation(target) == Success(true) <==>
            EndsWith(target, ".gif") || EndsWith(target, ".png") || EndsWith(target, ".webp")
  {
    assert ".gif" == "." + AnimatedExtensions[0];
    assert ".png" == "." + AnimatedExtensions[1];
    assert ".webp" == "." + AnimatedExtensions[2];
    if TargetSupportsAnimation(target) == Success(true) {
      var k := LastIndexOf(target, '.').value;
      SelectedExtensionIsSuffix(target, k);
    } else {
      SuffixNotSelected(target, AnimatedExtensions[0]);
      SuffixNotSelected(target, AnimatedExtensions[1]);
      SuffixNotSelected(target, AnimatedExtensions[2]);
    }
  }

  /** The text after the `'.'` at index `k` is a suffix preceded by `'.'`. */
  lemma SelectedExtensionIsSuffix(target: string, k: nat)
    requires k < |target| && target[k] == '.'
    ensures EndsWith(target, "." + target[k + 1..])
  {
    assert |"." + target[k + 1..]| == |target| - k;
    assert target[k..] == "." + target[k + 1..];
  }

  lemma SuffixNotSelected(target: string, ext: string)
    requires ext in AnimatedExtensions && TargetSupportsAnimation(target) != Success(true)
    ensures !EndsWith(target, "." + ext)
  {
    if EndsWith(target, "." + ext) {
      assert '.' !in ext;
      SuffixSelectsExtension(target, ext);
    }
  }

  /** A target ending in `'.'` and a dot-free extension has that extension. */
  lemma SuffixSelectsExtension(target: string, ext: string)
    requires '.' !in ext && EndsWith(target, "." + ext)
    ensures LastIndexOf(target, '.') == Some(|target| - |ext| - 1)
    ensures target[|target| - |ext|..] == ext
  {
    var e := "." + ext;
    var p := |target| - |e|;
    assert target[p] == '.' by { assert target[p] == target[p..][0]; }
    assert '.' in target;
    var k := LastIndexOf(target, '.').value;
    forall q | p < q < |target| ensures target[q] != '.' {
      assert target[q] == target[p..][q - p] == e[q - p] == ext[q - p - 1];
    }
    assert target[p + 1..] == target[p..][1..];
  }

  /**
   * `is_animated`: the target allows animation and the background reports
   * `is_animated`; a background without that attribute (`None`) is still.
   */
  function IsAnimated(target: string, bgIsAnimated: Option<bool>): (r: Result<bool, Error>)
    ensures r.Failure? <==> '.' !in target
    ensures r == Success(true) ==> bgIsAnimated == Some(true)
    ensures r.Success? && bgIsAnimated == Some(true) ==> r == TargetSupportsAnimation(target)
  {
    match TargetSupportsAnimation(target)
    case Failure(e) => Failure(e)
    case Success(supported) => Success(supported && bgIsAnimated == Some(true))
  }

  /** What happens to the RGBA result images before saving. */
  datatype Conversion = KeepRgba | ConvertTo(mode: string)

  function ModeAfter(c: Conversion): string {
    match c
    case KeepRgba => "RGBA"
    case ConvertTo(mode) => mode
  }

  /**
   * Lines 188-191: an explicit `mode` always wins; otherwise the result takes
   * the background's mode, and is left as it is when that mode is RGBA.
   */
  function OutputConversion(mode: Option<string>, inputMode: string): (c: Conversion)
    ensures ModeAfter(c) == mode.GetOr(inputMode)
    ensures c == KeepRgba <==> mode.None? && inputMode == "RGBA"
  {
    if mode.None? && inputMode != "RGBA" then ConvertTo(inputMode)
    else if mode.Some? then ConvertTo(mode.value)
    else KeepRgba
  }
}

/**
 * What this model assumes of the QR encoder (segno), whose code is not part
 * of it: the pixel size of a rendered symbol.
 */
module SegnoSymbol {

  /** A pixel size, Pillow's `(width, height)`. */
  datatype Size = Size(width: int, height: int)

  /**
   * `qrcode.symbol_size(scale, border)` of a symbol of `width` x `height`
   * modules: the modules plus a quiet zone of `border` modules on every
   * side, each module `scale` pixels wide.
   */
  function SymbolSize(width: nat, height: nat, scale: int, border: int): (r: Size)
    ensures 0 <= scale && 0 <= border ==> 0 <= r.width && 0 <= r.height
  {
    Size((width + 2 * border) * scale, (height + 2 * border) * scale)
  }
}

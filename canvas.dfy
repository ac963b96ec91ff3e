/** The part of a node-canvas 2D rendering context that the caption code uses:
    the current font, text measurement under that font, and the text draw calls. */
module Canvas {

  /** A text draw call: `strokeText(text, x, y)` or `fillText(text, x, y)`. */
  datatype Draw =
    | Stroke(text: string, x: int, y: int)
    | Fill(text: string, x: int, y: int)

  /** A rendering context. The font is recorded by its pixel size, the only
      part of `bold <size>px Impact` the code varies. `measure(size, s)` is the
      width `measureText(s).width` reports for `s` at that size; the font
      engine behind it is not modelled, so it is an arbitrary function. */
  class Context {
    var font: int
    const measure: (int, string) -> nat

    constructor (initialFont: int, measure: (int, string) -> nat)
      ensures font == initialFont && this.measure == measure
    {
      font := initialFont;
      this.measure := measure;
    }

    /** `ctx.measureText(s).width` under the current font. */
    function MeasureText(s: string): nat
      reads this
    {
      measure(font, s)
    }
  }
}

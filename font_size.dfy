/** `adjustFontSize`: the search for a font size at which a caption, measured
    as one unwrapped line, fits the canvas width. */
module FontSize {
  import opened Canvas

  /** The loop keeps shrinking only while the size is above this. */
  const Floor := 30
  /** How much smaller each next size is. */
  const Step := 2

  /** How the search ended: it broke out of the loop at a size that fits, or
      it ran out of sizes and returned one `Step` below the last size it tried. */
  datatype SizeChoice = Fitted(size: int) | Exhausted(size: int) {
    /** The size the context's font was last set to. */
    function FontLeft(): int {
      if Fitted? then size else size + Step
    }
  }

  predicate Fits(measure: (int, string) -> nat, text: string, maxWidth: int, size: int) {
    measure(size, text) <= maxWidth
  }

  /** `size` is one of the sizes the search sets and measures when no earlier
      one fits: `maxFontSize` itself, then every size `Step`, `2 * Step`, ...
      below it that is still above `Floor`. */
  predicate Probed(maxFontSize: int, size: int) {
    size <= maxFontSize && (maxFontSize - size) % Step == 0
    && (size == maxFontSize || size > Floor)
  }

  /** The outcome of the loop once it has reached `size`. */
  function Search(measure: (int, string) -> nat, text: string, maxWidth: int, size: int): SizeChoice
    decreases size
  {
    if Fits(measure, text, maxWidth, size) then Fitted(size)
    else if size - Step > Floor then Search(measure, text, maxWidth, size - Step)
    else Exhausted(size - Step)
  }

  /** Below a probed size above the floor, the probed sizes are those of the next step. */
  lemma ProbedStep(maxFontSize: int, s: int)
    requires maxFontSize - Step > Floor
    ensures Probed(maxFontSize, s) <==> s == maxFontSize || Probed(maxFontSize - Step, s)
  {
  }

  /** When the search breaks out of the loop, it does so at the FIRST probed
      size that fits; in particular it keeps `maxFontSize` when the text fits there. */
  lemma {:induction false} SearchFirstFit(measure: (int, string) -> nat, text: string, maxWidth: int, maxFontSize: int)
    ensures Fits(measure, text, maxWidth, maxFontSize) ==>
              Search(measure, text, maxWidth, maxFontSize) == Fitted(maxFontSize)
    ensures var o := Search(measure, text, maxWidth, maxFontSize);
            o.Fitted? ==>
              Probed(maxFontSize, o.size) && Fits(measure, text, maxWidth, o.size)
              && forall s :: Probed(maxFontSize, s) && s > o.size ==> !Fits(measure, text, maxWidth, s)
    decreases maxFontSize
  {
    if !Fits(measure, text, maxWidth, maxFontSize) && maxFontSize - Step > Floor {
      SearchFirstFit(measure, text, maxWidth, maxFontSize - Step);
      forall s | Probed(maxFontSize, s) {
        ProbedStep(maxFontSize, s);
      }
    }
  }

  /** The search runs out of sizes exactly when no probed size fits; the size
      it then returns is never measured, and the font is left one step above it,
      at the last size that was. */
  lemma {:induction false} SearchExhausted(measure: (int, string) -> nat, text: string, maxWidth: int, maxFontSize: int)
    ensures var o := Search(measure, text, maxWidth, maxFontSize);
            o.Exhausted? <==> forall s :: Probed(maxFontSize, s) ==> !Fits(measure, text, maxWidth, s)
    ensures var o := Search(measure, text, maxWidth, maxFontSize);
            o.Exhausted? ==> !Probed(maxFontSize, o.size) && Probed(maxFontSize, o.FontLeft())
    decreases maxFontSize
  {
    var o := Search(measure, text, maxWidth, maxFontSize);
    if Fits(measure, text, maxWidth, maxFontSize) {
      assert Probed(maxFontSize, maxFontSize);
    } else if maxFontSize - Step > Floor {
      SearchExhausted(measure, text, maxWidth, maxFontSize - Step);
      forall s {
        ProbedStep(maxFontSize, s);
      }
    } else {
      forall s | Probed(maxFontSize, s) ensures s == maxFontSize { }
    }
  }

  /** The result is always `maxFontSize - 2k` for some k >= 0. Above the floor
      it never ends below 29; at or below it the loop body runs once, so the
      result is `maxFontSize` or `maxFontSize - 2`. */
  lemma {:induction false} SearchBounds(measure: (int, string) -> nat, text: string, maxWidth: int, maxFontSize: int)
    ensures var o := Search(measure, text, maxWidth, maxFontSize);
            o.size <= maxFontSize && (maxFontSize - o.size) % Step == 0
    ensures var o := Search(measure, text, maxWidth, maxFontSize);
            maxFontSize > Floor ==> Floor - 1 <= o.size
    ensures var o := Search(measure, text, maxWidth, maxFontSize);
            maxFontSize > Floor && o.Exhausted? ==> o.size == Floor - 1 || o.size == Floor
    ensures var o := Search(measure, text, maxWidth, maxFontSize);
            maxFontSize <= Floor ==> o.size == maxFontSize || o.size == maxFontSize - Step
    decreases maxFontSize
  {
    if !Fits(measure, text, maxWidth, maxFontSize) && maxFontSize - Step > Floor {
      SearchBounds(measure, text, maxWidth, maxFontSize - Step);
    }
  }

  /** `adjustFontSize(ctx, text, maxWidth, maxFontSize)`: a do-while loop that
      sets the context's font to the current size, stops if `text` then
      measures within `maxWidth`, and otherwise shrinks the size by `Step`,
      going round again while it is above `Floor`. */
  method AdjustFontSize(ctx: Context, text: string, maxWidth: int, maxFontSize: int) returns (fontSize: int)
    modifies ctx
    ensures fontSize == Search(ctx.measure, text, maxWidth, maxFontSize).size
    ensures ctx.font == Search(ctx.measure, text, maxWidth, maxFontSize).FontLeft()
    ensures ctx.measure(maxFontSize, text) <= maxWidth ==> fontSize == maxFontSize
    ensures fontSize <= maxFontSize && (maxFontSize - fontSize) % Step == 0
  {
    fontSize := maxFontSize;
    while true
      invariant Search(ctx.measure, text, maxWidth, fontSize) == Search(ctx.measure, text, maxWidth, maxFontSize)
      decreases fontSize
    {
      ctx.font := fontSize;
      if ctx.MeasureText(text) <= maxWidth {
        break;
      }
      fontSize := fontSize - Step;
      if fontSize <= Floor {
        break;
      }
    }
    SearchFirstFit(ctx.measure, text, maxWidth, maxFontSize);
    SearchBounds(ctx.measure, text, maxWidth, maxFontSize);
  }
}

/**
 * The symbolic vocabulary of the monochrome graphics layer: pixel colours,
 * points, text baselines, monospace fonts and text draw operations. Glyphs are
 * never rasterised; a draw is recorded as the text, where it goes and how.
 */
module Graphics {
  /** The two colours of a binary (monochrome) panel. */
  datatype Color = Off | On

  datatype Point = Point(x: int, y: int)

  /** Which edge of the text box the anchor point denotes. */
  datatype Baseline = Top | Bottom | Middle | Alphabetic

  /** A fixed-width font, described only by its glyph cell. */
  datatype MonoFont = MonoFont(charWidth: nat, charHeight: nat)

  const Font6x13 := MonoFont(6, 13)

  datatype TextStyle = TextStyle(font: MonoFont, color: Color)

  /** One text draw: content, anchor, style and baseline. */
  datatype Text = Text(content: string, position: Point, style: TextStyle, baseline: Baseline)

  /** A frame as the panel shows it: the colour it was cleared to and the texts drawn over it, in order. */
  datatype Frame = Frame(fill: Color, draws: seq<Text>)

  /** A frame shows something only if some text is drawn in a colour other than the background. */
  predicate Legible(f: Frame)
  {
    exists i :: 0 <= i < |f.draws| && f.draws[i].style.color != f.fill
  }
}

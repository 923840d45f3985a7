/** Stage two of the pipeline (`ascii_to_png`): the character grid is split
    back into lines, a transparent canvas is sized to hold every line as a
    row of glyph cells, and each line is drawn at the left edge, one cell
    height below the previous one. */
module GlyphRasterizer {
  import opened TextLines
  import AsciiRenderer

  type Size = AsciiRenderer.Size

  /** The cell of one glyph, from the bounding box of "X":
      `right - left` by `bottom - top`. */
  datatype GlyphMetrics = GlyphMetrics(charWidth: nat, charHeight: nat)

  datatype Color = Rgb(r: nat, g: nat, b: nat) | Rgba(r: nat, g: nat, b: nat, a: nat)

  /** The canvas background: white with alpha 0. */
  const Transparent: Color := Rgba(255, 255, 255, 0)

  /** The text colour. */
  const Black: Color := Rgb(0, 0, 0)

  /** One `draw.text((x, y), text, fill=fill)` call. */
  datatype TextOp = TextOp(x: int, y: int, text: string, fill: Color)

  /** `max(len(line) for line in lines)`: the length of the longest line. */
  function MaxLineWidth(lines: seq<string>): (m: nat)
    requires |lines| >= 1
    ensures forall k :: 0 <= k < |lines| ==> |lines[k]| <= m
    ensures exists k :: 0 <= k < |lines| && |lines[k]| == m
    decreases |lines|
  {
    if |lines| == 1 then |lines[0]|
    else
      var rest := MaxLineWidth(lines[1..]);
      assert forall k :: 1 <= k < |lines| ==> lines[k] == lines[1..][k - 1];
      if |lines[0]| >= rest then |lines[0]| else rest
  }

  /** The canvas size: the longest line's width in cells by one cell per
      line. Every line fits across it, and the longest fills it exactly. */
  function CanvasSize(lines: seq<string>, metrics: GlyphMetrics): (r: Size)
    requires |lines| >= 1
    ensures r.height == metrics.charHeight * |lines|
    ensures forall k :: 0 <= k < |lines| ==> |lines[k]| * metrics.charWidth <= r.width
    ensures exists k :: 0 <= k < |lines| && |lines[k]| * metrics.charWidth == r.width
  {
    var m := MaxLineWidth(lines);
    assert forall k :: 0 <= k < |lines| ==> |lines[k]| * metrics.charWidth <= metrics.charWidth * m by {
      forall k | 0 <= k < |lines| ensures |lines[k]| * metrics.charWidth <= metrics.charWidth * m {
        AsciiRenderer.MulMonotone(|lines[k]|, m, metrics.charWidth);
      }
    }
    AsciiRenderer.Size(metrics.charWidth * m, metrics.charHeight * |lines|)
  }

  /** The draw calls of the loop: one per line, in line order, at the left
      edge in black; the first at the top and each next one `charHeight`
      further down. */
  function Layout(lines: seq<string>, charHeight: nat): (r: seq<TextOp>)
    ensures |r| == |lines|
    ensures forall k :: 0 <= k < |r| ==> r[k].x == 0 && r[k].text == lines[k] && r[k].fill == Black
    ensures |r| >= 1 ==> r[0].y == 0
    ensures forall k :: 0 < k < |r| ==> r[k].y == r[k - 1].y + charHeight
  {
    seq(|lines|, k requires 0 <= k < |lines| => TextOp(0, k * charHeight, lines[k], Black))
  }

  /** Drawing one more line adds one call below the others. */
  lemma LayoutSnoc(lines: seq<string>, line: string, charHeight: nat)
    ensures Layout(lines + [line], charHeight)
      == Layout(lines, charHeight) + [TextOp(0, |lines| * charHeight, line, Black)]
  {
    var a := Layout(lines + [line], charHeight);
    var b := Layout(lines, charHeight) + [TextOp(0, |lines| * charHeight, line, Black)];
    assert |a| == |b|;
    forall k | 0 <= k < |a| ensures a[k] == b[k] {
      if k < |lines| {
        assert (lines + [line])[k] == lines[k];
      }
    }
  }

  /** An RGBA image being drawn on: its size, its background and the text
      drawn onto it so far, in drawing order. How the glyphs become pixels
      belongs to the font library. */
  class Canvas {
    const width: nat
    const height: nat
    const background: Color
    var ops: seq<TextOp>

    /** `Image.new("RGBA", (width, height), background)`. */
    constructor (width: nat, height: nat, background: Color)
      ensures this.width == width && this.height == height && this.background == background
      ensures ops == []
    {
      this.width := width;
      this.height := height;
      this.background := background;
      ops := [];
    }

    /** `draw.text((x, y), text, fill=fill)`: adds one text to the canvas. */
    method DrawText(x: int, y: int, text: string, fill: Color)
      modifies this
      ensures ops == old(ops) + [TextOp(x, y, text, fill)]
    {
      ops := ops + [TextOp(x, y, text, fill)];
    }
  }

  /** `ascii_to_png` up to the save: splits the text on newlines, creates the
      transparent canvas of `CanvasSize`, and draws every line at the next
      y-offset. */
  method AsciiToPng(asciiStr: string, metrics: GlyphMetrics) returns (img: Canvas)
    ensures fresh(img)
    ensures img.width == CanvasSize(Split(asciiStr, '\n'), metrics).width
    ensures img.height == CanvasSize(Split(asciiStr, '\n'), metrics).height
    ensures img.background == Transparent
    ensures img.ops == Layout(Split(asciiStr, '\n'), metrics.charHeight)
  {
    var lines := Split(asciiStr, '\n');
    var charWidth, charHeight := metrics.charWidth, metrics.charHeight;
    var maxLineWidth := MaxLineWidth(lines);
    var imgWidth := charWidth * maxLineWidth;
    var imgHeight := charHeight * |lines|;
    img := new Canvas(imgWidth, imgHeight, Transparent);
    var yOffset := 0;
    for k := 0 to |lines|
      invariant yOffset == k * charHeight
      invariant img.ops == Layout(lines[..k], charHeight)
    {
      img.DrawText(0, yOffset, lines[k], Black);
      LayoutSnoc(lines[..k], lines[k], charHeight);
      assert lines[..k + 1] == lines[..k] + [lines[k]];
      AsciiRenderer.MulSucc(k, charHeight);
      yOffset := yOffset + charHeight;
    }
    assert lines[..|lines|] == lines;
  }

  /** Lines all of width `w` need a canvas of exactly `w` cells across. */
  lemma RectangularCanvas(lines: seq<string>, w: nat, metrics: GlyphMetrics)
    requires |lines| >= 1
    requires forall k :: 0 <= k < |lines| ==> |lines[k]| == w
    ensures CanvasSize(lines, metrics).width == metrics.charWidth * w
    ensures CanvasSize(lines, metrics).height == metrics.charHeight * |lines|
  {
    var k :| 0 <= k < |lines| && |lines[k]| == MaxLineWidth(lines);
  }

  /** Every draw call is at the left edge, draws line `k` at `k * charHeight`,
      and for a positive cell height its whole cell lies on the canvas. */
  lemma LayoutWithinCanvas(lines: seq<string>, metrics: GlyphMetrics)
    requires |lines| >= 1
    ensures |Layout(lines, metrics.charHeight)| == |lines|
    ensures forall k :: 0 <= k < |lines| ==>
      var op := Layout(lines, metrics.charHeight)[k];
      op.x == 0 && op.y == k * metrics.charHeight && op.text == lines[k] && op.fill == Black
      && (metrics.charHeight > 0 ==>
            0 <= op.y < CanvasSize(lines, metrics).height
            && op.y + metrics.charHeight <= CanvasSize(lines, metrics).height)
  {
    forall k | 0 <= k < |lines|
      ensures 0 <= k * metrics.charHeight
      ensures k * metrics.charHeight + metrics.charHeight <= metrics.charHeight * |lines|
    {
      AsciiRenderer.RowEnd(k, |lines|, metrics.charHeight);
    }
  }

  /** The two-row grid "# " / "@#" in 8-by-12 cells needs a 16-by-24 canvas,
      with the rows drawn at y = 0 and y = 12. */
  lemma TwoRowExample()
    ensures Split("# \n@#", '\n') == ["# ", "@#"]
    ensures CanvasSize(Split("# \n@#", '\n'), GlyphMetrics(8, 12)) == AsciiRenderer.Size(16, 24)
    ensures Layout(["# ", "@#"], 12) == [TextOp(0, 0, "# ", Black), TextOp(0, 12, "@#", Black)]
  {
    assert "# \n@#" == "# " + ['\n'] + "@#";
    SplitAfterPiece("# ", '\n', "@#");
    SplitWithoutSeparator("@#", '\n');
    assert MaxLineWidth(["# ", "@#"]) == 2;
  }
}

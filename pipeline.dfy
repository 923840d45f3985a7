/** The two stages together: the text the first stage produces for a
    resized image splits back into exactly its rows, and the second stage
    sizes its canvas to exactly one glyph cell per pixel. */
module Pipeline {
  import opened TextLines
  import opened AsciiRenderer
  import opened GlyphRasterizer

  /** For a resized image of at least one row, with a palette that holds no
      newline, the text splits back into exactly the rows it was joined
      from: `height` lines of `width` characters each. */
  lemma GridRows(image: GrayImage, palette: string)
    requires |palette| >= 1 && '\n' !in palette
    requires image.Valid() && image.width >= 1 && image.height >= 1
    ensures var lines := Split(AsciiGrid(image, palette), '\n');
      && lines == Chunks(Quantize(image.pixels, palette), image.width)
      && |lines| == image.height
      && (forall row :: 0 <= row < |lines| ==> |lines[row]| == image.width)
  {
    var q := Quantize(image.pixels, palette);
    var rows := Chunks(q, image.width);
    ChunksExact(q, image.width, image.height);
    ChunksChars(q, image.width);
    assert '\n' !in q;
    assert forall row :: 0 <= row < |rows| ==> '\n' !in rows[row];
    SplitJoin('\n', rows);
  }

  /** ... and the character at line `row`, column `col` is the palette
      entry for the pixel at `row`, `col`. */
  lemma GridCharacters(image: GrayImage, palette: string, row: nat, col: nat)
    requires |palette| >= 1 && '\n' !in palette
    requires image.Valid() && row < image.height && col < image.width
    ensures var lines := Split(AsciiGrid(image, palette), '\n');
      row < |lines| && col < |lines[row]|
      && lines[row][col] == CharFor(palette, PixelAt(image, row, col))
  {
    GridRows(image, palette);
    RowChar(Quantize(image.pixels, palette), image.width, image.height, row, col);
  }

  /** The canvas for the text of a resized image of at least one row is
      `charWidth * width` by `charHeight * height`. */
  lemma CanvasForImage(image: GrayImage, palette: string, metrics: GlyphMetrics)
    requires |palette| >= 1 && '\n' !in palette
    requires image.Valid() && image.width >= 1 && image.height >= 1
    ensures var size := CanvasSize(Split(AsciiGrid(image, palette), '\n'), metrics);
      size.width == metrics.charWidth * image.width && size.height == metrics.charHeight * image.height
  {
    GridRows(image, palette);
    var text := AsciiGrid(image, palette);
    var lines := Split(text, '\n');
    assert |lines| == image.height;
    RectangularCanvas(lines, image.width, metrics);
  }

  /** `image_to_ascii` end to end: when the file decodes, the resize is
      accepted and the resampler delivers the grey values of the size
      `ResizedSize` computes, the text splits into `NewHeight` lines of
      exactly `newWidth` characters each. */
  lemma ConvertedRows(source: Size, newWidth: int, scale: Scale, resampled: seq<Byte>, palette: string)
    requires scale.den > 0 && |palette| >= 1 && '\n' !in palette
    requires ResizedSize(source, newWidth, scale).Ok?
    requires |resampled| == ResizedSize(source, newWidth, scale).value.width
                            * ResizedSize(source, newWidth, scale).value.height
    ensures var r := ImageToAscii(Ok(source), newWidth, scale, resampled, palette);
      r.Ok?
      && |Split(r.value, '\n')| == NewHeight(source, newWidth, scale)
      && (forall row :: 0 <= row < |Split(r.value, '\n')| ==> |Split(r.value, '\n')[row]| == newWidth)
  {
    var size := ResizedSize(source, newWidth, scale).value;
    GridRows(GrayImage(size.width, size.height, resampled), palette);
  }

  /** ... and `ascii_to_png` sizes the canvas for that text at
      `charWidth * newWidth` by `charHeight * NewHeight`. */
  lemma ConvertedCanvas(source: Size, newWidth: int, scale: Scale, resampled: seq<Byte>,
                        palette: string, metrics: GlyphMetrics)
    requires scale.den > 0 && |palette| >= 1 && '\n' !in palette
    requires ResizedSize(source, newWidth, scale).Ok?
    requires |resampled| == ResizedSize(source, newWidth, scale).value.width
                            * ResizedSize(source, newWidth, scale).value.height
    ensures var r := ImageToAscii(Ok(source), newWidth, scale, resampled, palette);
      r.Ok?
      && var size := CanvasSize(Split(r.value, '\n'), metrics);
      size.width == metrics.charWidth * newWidth
      && size.height == metrics.charHeight * NewHeight(source, newWidth, scale)
  {
    var size := ResizedSize(source, newWidth, scale).value;
    CanvasForImage(GrayImage(size.width, size.height, resampled), palette, metrics);
  }

  /** A resize to width 1 at scale 1/10000 is refused for every image less
      than 10000 times taller than wide, so no text is produced at all. */
  lemma TinyScaleNoGrid(source: Size, resampled: seq<Byte>, palette: string)
    requires |palette| >= 1
    requires source.width > 0 && source.height < 10000 * source.width
    ensures ImageToAscii(Ok(source), 1, Scale(1, 10000), resampled, palette) == Err(InvalidDimension)
  {
    TinyScaleRefused(source);
  }

  /** The three-tone palette holds no newline, so all of the above applies
      to it. */
  lemma ThreeToneCanvas(image: GrayImage, metrics: GlyphMetrics)
    requires image.Valid() && image.width >= 1 && image.height >= 1
    ensures |Split(AsciiGrid(image, AsciiChars), '\n')| == image.height
    ensures var size := CanvasSize(Split(AsciiGrid(image, AsciiChars), '\n'), metrics);
      size.width == metrics.charWidth * image.width && size.height == metrics.charHeight * image.height
  {
    assert '\n' !in AsciiChars;
    GridRows(image, AsciiChars);
    CanvasForImage(image, AsciiChars, metrics);
  }
}

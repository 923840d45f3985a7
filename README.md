# ASCII art from an image, and back to a transparent PNG

A Dafny model of `pillowimageasciart.py`, a script that turns a picture into
three-tone character art and renders that art again as black text on a
transparent canvas. What is modelled is the integer arithmetic and string
shaping the script does around the imaging library's calls:

- **Luminance quantization** (`pixels_to_ascii`). Every 8-bit grey value `p`
  becomes the palette character at index `(p * n) // 256`, where `n` is the
  palette length. The palette is a parameter of at least one character.
  `AsciiChars` is the script's own `" #@"`. The model has both the loop that
  appends one-character strings and joins them with `""` (`PixelsToAscii`),
  and the function it is proved against (`Quantize`).
- **Row chunking** (`image_to_ascii`). The flat character string is cut into
  the slices `s[i:i+w]` for `i` in `range(0, len(s), w)`. Python's clamping
  slice semantics are written out (`Slice`). The rows are then joined with
  `"\n"`.
- **Resize size** (`resize_image`). The target width is taken as given. The
  new height is `int(height / width * new_width * scale_factor)`, computed
  on exact fractions with truncation toward zero.
- **Canvas geometry** (`ascii_to_png`). The text is split on `"\n"` with
  Python's `str.split` semantics. The canvas is `char_width * longest line`
  by `char_height * line count`. It is a `Canvas` object that records every
  `draw.text` call. The loop draws line `k` at `(0, k * char_height)`.
- **The whole of `image_to_ascii`** (`ImageToAscii`). The decoded size goes
  through `ResizedSize`. A decoding error or a refused resize gives that
  error and no text. Otherwise the resampled grey values become the grid.
- **The two stages together** (`Pipeline`). For the text of a resized image
  with at least one row, splitting recovers exactly the rows. Each row is as
  wide as the image, and the canvas has one glyph cell per pixel. From a
  decoded size: the text has `NewHeight` lines of `new_width` characters.

Modules: `TextLines` (join and split), `AsciiRenderer` (stage one),
`GlyphRasterizer` (stage two) and `Pipeline` (end-to-end lemmas).

Three facts about the script shape the model:

- `int()` truncates the new height toward zero; it does not round.
- The script has no height check of its own. A target dimension below 1 is
  refused by the imaging library's resize, inside the `try` block. The model
  reports it as `InvalidDimension`.
- The canvas width comes from the longest line, not from the image width.

## Model

| member | source | states |
|---|---|---|
| `TextLines.Split` | pillowimageasciart.py:72 | the result of `split("\n")` for a single-character separator: always at least one piece, and no piece contains the separator |
| `TextLines.SplitPieceCount` | pillowimageasciart.py:72 | there is exactly one more piece than there are separators in the text |
| `TextLines.SplitJoin` | pillowimageasciart.py:58-72 | splitting a join of separator-free parts gives back exactly those parts; the empty list is the one exception, since it joins to `""`, which splits to `[""]` |
| `TextLines.JoinSplit` | pillowimageasciart.py:72 | joining the pieces of any text with the separator gives back the text |
| `TextLines.Join` | pillowimageasciart.py:40 | `"".join` gives as many characters as the parts hold together; with a one-character separator, as in `"\n".join` at line 58, there is one more character for every part after the first; no parts join to `""` |
| `TextLines.JoinWithin` | pillowimageasciart.py:58-60 | a join holds only characters of the separator and of the parts |
| `TextLines.JoinSnoc` | pillowimageasciart.py:38-40 | joining a list that has one more part at the end gives the old join, then the separator, then the new part |
| `AsciiRenderer.BandIndex` | pillowimageasciart.py:30-37 | `(p * n) // 256` is always a valid palette index (below `n`), and it is the floor of `p * n / 256` |
| `AsciiRenderer.CharFor` | pillowimageasciart.py:37-38 | the character chosen for a pixel is always a palette character |
| `AsciiRenderer.Quantize` | pillowimageasciart.py:29-40 | one character per pixel, in pixel order: the length equals the pixel count, and character `i` is the palette entry for pixel `i` |
| `AsciiRenderer.PixelsToAscii` | pillowimageasciart.py:21-40 | the append-then-`"".join` loop produces exactly `Quantize` of the pixels |
| `AsciiRenderer.BandMonotone` | pillowimageasciart.py:37 | a brighter pixel never gets a lower palette index |
| `AsciiRenderer.BandReached` | pillowimageasciart.py:33-37 | for a palette of at most 256 characters every index is used; band `k` starts exactly at grey value `ceil(256k/n)` |
| `AsciiRenderer.ThreeToneBands` | pillowimageasciart.py:33-37 | with `" #@"`: 0..85 map to `' '`, 86..170 to `'#'` and 171..255 to `'@'`, in both directions |
| `AsciiRenderer.Slice` | pillowimageasciart.py:59 | Python slicing: inside the bounds it is the ordinary subsequence; an end past the length is clamped, so the slice runs to the end; it is empty when the end is not past the start or the start is at or past the length |
| `AsciiRenderer.ChunksFrom` | pillowimageasciart.py:59 | there is one slice per step of `range(start, len(s), w)`: none from the end on, otherwise `(len(s) - start - 1) // w + 1` |
| `AsciiRenderer.Chunks` | pillowimageasciart.py:59 | the number of rows is `ceil(len(s) / w)`, the length of `range(0, len(s), w)` |
| `AsciiRenderer.ChunksConcat` | pillowimageasciart.py:58-60 | concatenating the slices `s[i:i+w]` for `i` in `range(0, len(s), w)` gives back `s` |
| `AsciiRenderer.ChunksBounds` | pillowimageasciart.py:59 | every slice has between 1 and `w` characters |
| `AsciiRenderer.ChunksChars` | pillowimageasciart.py:59 | a slice holds only characters of the flat string |
| `AsciiRenderer.ChunksExact` | pillowimageasciart.py:59 | for a length of `h * w` there are exactly `h` slices; slice `k` is `s[k*w : k*w+w]` and has exactly `w` characters |
| `AsciiRenderer.RowChar` | pillowimageasciart.py:59 | for a length of `h * w`, column `col` of row `row` is character `row * w + col` of the flat string |
| `AsciiRenderer.ChunksRectangular` | pillowimageasciart.py:57-60 | when `w` divides the length, there are `len(s) / w` slices and each has exactly `w` characters |
| `AsciiRenderer.NewHeight` | pillowimageasciart.py:17-18 | the new height is the whole part of `height / width * new_width * scale`: the floor for a non-negative value, the ceiling for a negative one |
| `AsciiRenderer.TruncDiv` | pillowimageasciart.py:18 | `int()` of a fraction truncates toward zero: the result is the floor for a non-negative numerator and the ceiling for a negative one |
| `AsciiRenderer.ResizedSize` | pillowimageasciart.py:16-19 | the resize succeeds exactly when the source width is positive and both target dimensions are at least 1; the resulting width is exactly `new_width` and the height is `NewHeight` |
| `AsciiRenderer.ResizeUnitScale` | pillowimageasciart.py:17-18 | at scale 1 the width is `new_width` and the height is `floor(height * new_width / width)` |
| `AsciiRenderer.TinyScaleRefused` | pillowimageasciart.py:17-19 | with `new_width = 1` and scale 1/10000, the height truncates to 0 for every image less than 10000 times taller than wide, and the resize is refused |
| `AsciiRenderer.AsciiGrid` | pillowimageasciart.py:57-60 | the text holds only palette characters and newlines |
| `AsciiRenderer.ImageToAscii` | pillowimageasciart.py:50-64 | text is produced exactly when decoding succeeds and `ResizedSize` accepts the target; a decoding error passes through unchanged; a refused resize gives its own error; on success the text is the grid of the `new_width` by `NewHeight` image the resampler delivered |
| `GlyphRasterizer.MaxLineWidth` | pillowimageasciart.py:86 | the result is at least the length of every line, and some line has exactly that length |
| `GlyphRasterizer.CanvasSize` | pillowimageasciart.py:86-88 | the canvas is `char_height * line count` high; every line fits across it (`len(line) * char_width` is at most the width), and some line fills it exactly |
| `GlyphRasterizer.Layout` | pillowimageasciart.py:95-98 | one draw call per line, in line order, at x = 0 in black with the line's text; the first at y = 0 and each next one `char_height` further down |
| `GlyphRasterizer.RectangularCanvas` | pillowimageasciart.py:86-88 | when all lines have length `w`, the canvas is `char_width * w` by `char_height * line count` |
| `GlyphRasterizer.LayoutSnoc` | pillowimageasciart.py:95-98 | drawing one more line adds one call at `(0, old line count * char_height)` after the earlier calls |
| `GlyphRasterizer.LayoutWithinCanvas` | pillowimageasciart.py:95-98 | there is one draw call per line, in line order; call `k` is at x = 0 and y = `k * char_height`, in black; when `char_height > 0` the whole cell of line `k` is on the canvas |
| `GlyphRasterizer.Canvas.constructor` | pillowimageasciart.py:91 | a new canvas has the given size and background and nothing drawn on it |
| `GlyphRasterizer.Canvas.DrawText` | pillowimageasciart.py:97 | one text is added at the end of what is drawn, and nothing else changes |
| `GlyphRasterizer.AsciiToPng` | pillowimageasciart.py:72-98 | the canvas is new, transparent and of size `CanvasSize` of the split lines; its draw calls are exactly `Layout`, so line `k` is at `(0, k * char_height)` |
| `GlyphRasterizer.TwoRowExample` | pillowimageasciart.py:86-98 | the grid `"# \n@#"` with 8-by-12 glyph cells splits into two rows, needs a 16-by-24 canvas, and draws its rows at y = 0 and y = 12 |
| `Pipeline.GridRows` | pillowimageasciart.py:58-72 | with a palette that has no newline, and an image with at least one row, the text splits back into exactly the row list: `height` lines of `width` characters |
| `Pipeline.GridCharacters` | pillowimageasciart.py:29-60 | the character at line `row`, column `col` is the palette entry for the pixel at row `row`, column `col` |
| `Pipeline.CanvasForImage` | pillowimageasciart.py:57-88 | the canvas for the text of such an image is `char_width * width` by `char_height * height` |
| `Pipeline.ConvertedRows` | pillowimageasciart.py:50-72 | when decoding succeeds, the resize is accepted and the resampler delivers a full grid, the text splits into `NewHeight` lines of exactly `new_width` characters |
| `Pipeline.ConvertedCanvas` | pillowimageasciart.py:50-88 | the canvas for that text is `char_width * new_width` by `char_height * NewHeight` |
| `Pipeline.TinyScaleNoGrid` | pillowimageasciart.py:17-64 | with `new_width = 1` and scale 1/10000, every image less than 10000 times taller than wide gives no text, only `InvalidDimension` |
| `Pipeline.ThreeToneCanvas` | pillowimageasciart.py:7-88 | the three-tone palette has no newline, so with it the text splits into `height` lines and the canvas is `char_width * width` by `char_height * height` |

## Left out

- Opening the file and converting it to greyscale (`Image.open(...).convert("L")`) belongs to the imaging library. `ImageToAscii` takes their outcome as input: the decoded size, or an error.
- Resampling (`image.resize` interpolation) and `getdata` are not modelled. `ImageToAscii` takes the resampler's grey values, in row-major order, as a parameter. Which grey values the resampler produces is not modelled. `Pipeline.ConvertedRows` assumes it delivers one value per pixel of the size `ResizedSize` computes.
- NewHeight: the height is computed on exact fractions, and the scale factor is a fraction `num / den`. The script computes `height / float(width) * new_width * scale_factor` in floating point. Rounding can make the float result differ by one near a whole number.
- ResizedSize: the refusal of a target dimension below 1 is how the imaging library's resize behaves. The script itself does not check it.
- Loading fonts (`ImageFont.load_default`, `ImageFont.truetype`) and measuring them (`getbbox("X")`) are foreign calls. The glyph cell comes in as `GlyphMetrics`, two non-negative integers. A bounding box with `right < left` is not modelled.
- `draw.text` rasterization is not modelled. The `Canvas` records each call's position, text and fill colour, but not the pixels the glyphs cover.
- `img.save` and every `print` are I/O and are not modelled.
- In the script, the `try/except` prints the exception and returns `None` for every failure. The model keeps the reason (`Error`). A caller that only sees success or failure sees the same outcome.
- The `__main__` block is not modelled: its fixed path, the text-file write, and its `if ascii_art:` check before rendering.
- Default arguments are not modelled: `new_width=80` and `scale_factor=1.0` (lines 9 and 42), and `output_path="ascii_art.png"`, `font_path=None` and `font_size=16` (line 66). Every value is an explicit parameter of the model.
- Palette: the script uses the fixed constant `ASCII_CHARS`. The model takes the palette as a parameter and proves the three-tone bands for `AsciiChars`.

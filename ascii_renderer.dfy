/** Stage one of the pipeline: an 8-bit greyscale image is resized, and
    then turned into a grid of palette characters, one per pixel, cut into rows as
    wide as the image and joined with newlines (`pixels_to_ascii`,
    `image_to_ascii` and the size computation of `resize_image`). */
module AsciiRenderer {
  import opened TextLines

  /** An 8-bit grey value, as Pillow's "L" mode stores it. */
  type Byte = x: int | 0 <= x < 256

  /** The three-tone palette: space for dark, '#' for mid-grey, '@' for bright. */
  const AsciiChars: string := " #@"

  /** Why a conversion produced no grid. The program itself reports every one
      of these the same way: it prints the exception and returns `None`. */
  datatype Error =
    | DecodeError       // the file could not be opened or converted to "L"
    | ZeroDivision      // the source image has width 0 (aspect ratio undefined)
    | InvalidDimension  // a resize target dimension below 1, which the resize refuses

  datatype Result<T> = Ok(value: T) | Err(error: Error)

  /** A greyscale image: its pixels in row-major order, as `getdata` yields them. */
  datatype GrayImage = GrayImage(width: nat, height: nat, pixels: seq<Byte>)
  {
    predicate Valid() { |pixels| == width * height }
  }

  datatype Size = Size(width: nat, height: nat)

  /** A scale factor, as the exact fraction `num / den`. */
  datatype Scale = Scale(num: int, den: int)

  /** The grey value at `row`, `col` of a row-major image. */
  function PixelAt(image: GrayImage, row: nat, col: nat): Byte
    requires image.Valid() && row < image.height && col < image.width
  {
    RowEnd(row, image.height, image.width);
    image.pixels[row * image.width + col]
  }

  /** Row `k` of `h` rows of `w` ends at or before `h * w`. */
  lemma RowEnd(k: nat, h: nat, w: nat)
    requires k < h
    ensures k * w + w <= h * w
  {
    var d := h - k - 1;
    assert h == k + 1 + d;
    assert h * w == k * w + w + d * w;
  }

  lemma MulSucc(j: nat, w: nat)
    ensures (j + 1) * w == j * w + w
  {
  }

  /** Division by `w` is determined by the bounds `q * w <= x < q * w + w`. */
  lemma DivUnique(x: int, w: int, q: int)
    requires w > 0 && q * w <= x < q * w + w
    ensures x / w == q
  {
    var q2 := x / w;
    assert q2 * w <= x < q2 * w + w;
    assert q * w < (q2 + 1) * w;
    assert q2 * w < (q + 1) * w;
    CancelFactorStrict(q, q2 + 1, w);
    CancelFactorStrict(q2, q + 1, w);
  }

  /** `w` more characters make one more step of `w`. */
  lemma DivStep(a: int, w: int)
    requires a >= 0 && w > 0
    ensures (a + w) / w == a / w + 1
  {
    var q := a / w;
    assert q * w <= a < q * w + w;
    assert (q + 1) * w == q * w + w;
    DivUnique(a + w, w, q + 1);
  }

  lemma MulMonotone(a: nat, b: nat, c: nat)
    requires a <= b
    ensures a * c <= b * c
  {
    var d := b - a;
    assert b * c == a * c + d * c;
  }

  // ---------------------------------------------------------------------
  // Luminance quantization

  /** `(p * n) // 256`: the palette index of grey value `p` for a palette of
      `n` characters. It is always a valid index, and it is the floor of
      `p * n / 256`. */
  function BandIndex(p: Byte, n: nat): (idx: nat)
    requires n >= 1
    ensures idx < n
    ensures idx * 256 <= p * n < idx * 256 + 256
  {
    MulMonotone(p, 255, n);
    (p * n) / 256
  }

  /** The palette character that stands for grey value `p`. */
  function CharFor(palette: string, p: Byte): (c: char)
    requires |palette| >= 1
    ensures c in palette
  {
    palette[BandIndex(p, |palette|)]
  }

  /** The characters for a sequence of pixels, as `"".join` of the list built
      by `pixels_to_ascii`: one character per pixel, in pixel order. */
  function Quantize(pixels: seq<Byte>, palette: string): (r: string)
    requires |palette| >= 1
    ensures |r| == |pixels|
    ensures forall i :: 0 <= i < |pixels| ==> r[i] == CharFor(palette, pixels[i])
    decreases |pixels|
  {
    if |pixels| == 0 then ""
    else Quantize(pixels[..|pixels| - 1], palette) + [CharFor(palette, pixels[|pixels| - 1])]
  }

  /** `pixels_to_ascii`: appends the palette character of every pixel to a
      list of one-character strings, then joins the list with `""`. */
  method PixelsToAscii(pixels: seq<Byte>, palette: string) returns (s: string)
    requires |palette| >= 1
    ensures s == Quantize(pixels, palette)
  {
    var asciiStrList: seq<string> := [];
    var length := |palette|;
    for i := 0 to |pixels|
      invariant Join("", asciiStrList) == Quantize(pixels[..i], palette)
    {
      var idx := BandIndex(pixels[i], length);
      JoinSnoc("", asciiStrList, [palette[idx]]);
      asciiStrList := asciiStrList + [[palette[idx]]];
      assert pixels[..i + 1][..i] == pixels[..i];
    }
    s := Join("", asciiStrList);
    assert pixels[..|pixels|] == pixels;
  }

  /** Quantization never lets a brighter pixel get a darker character. */
  lemma BandMonotone(p: Byte, q: Byte, n: nat)
    requires n >= 1 && p <= q
    ensures BandIndex(p, n) <= BandIndex(q, n)
  {
    MulMonotone(p, q, n);
  }

  /** For a palette of at most 256 characters every character is used: band
      `k` starts at the grey value `ceil(256 * k / n)`. */
  lemma BandReached(k: nat, n: nat)
    requires 1 <= n <= 256 && k < n
    ensures var p := (256 * k + n - 1) / n;
      p < 256 && BandIndex(p, n) == k
      && (p > 0 ==> BandIndex(p - 1, n) < k)
  {
    var p := (256 * k + n - 1) / n;
    assert p * n <= 256 * k + n - 1 < p * n + n;
    assert p < 256 by {
      assert 256 * k + n - 1 < 256 * n;
    }
    assert 256 * k <= p * n < 256 * k + 256;
    if p > 0 {
      assert (p - 1) * n == p * n - n;
    }
  }

  /** The exact bands of the three-tone palette: 0..85 is ' ', 86..170 is
      '#', 171..255 is '@'. */
  lemma ThreeToneBands(p: Byte)
    ensures CharFor(AsciiChars, p) == ' ' <==> p <= 85
    ensures CharFor(AsciiChars, p) == '#' <==> 86 <= p <= 170
    ensures CharFor(AsciiChars, p) == '@' <==> 171 <= p
  {
    var idx := BandIndex(p, 3);
    assert idx == 0 <==> p <= 85;
    assert idx == 1 <==> 86 <= p <= 170;
  }

  // ---------------------------------------------------------------------
  // Row chunking

  /** Python's slice `s[lo:hi]` for non-negative bounds: both ends are
      clamped to the length. */
  function Slice(s: string, lo: nat, hi: nat): (r: string)
    ensures lo <= hi <= |s| ==> r == s[lo..hi]
    ensures lo <= |s| <= hi ==> r == s[lo..]
    ensures hi <= lo || |s| <= lo ==> r == ""
  {
    var b := if hi < |s| then hi else |s|;
    var a := if lo < b then lo else b;
    s[a..b]
  }

  /** `[s[i : i + w] for i in range(start, len(s), w)]`. */
  /** There are as many items as `range(start, len(s), w)` has steps:
      none from the end on, and one more for every `w` characters before. */
  function ChunksFrom(s: string, w: nat, start: nat): (r: seq<string>)
    requires w > 0
    ensures start >= |s| ==> r == []
    ensures start < |s| ==> |r| == (|s| - start - 1) / w + 1
    decreases |s| - start
  {
    if start >= |s| then []
    else
      var rows := [Slice(s, start, start + w)] + ChunksFrom(s, w, start + w);
      if start + w < |s| then
        DivStep(|s| - start - w - 1, w);
        rows
      else
        DivUnique(|s| - start - 1, w, 0);
        rows
  }

  /** The rows cut from the flat character sequence, `w` characters each:
      `ceil(len(s) / w)` of them. */
  function Chunks(s: string, w: nat): (r: seq<string>)
    requires w > 0
    ensures |r| == (|s| + w - 1) / w
  {
    if |s| > 0 then
      DivStep(|s| - 1, w);
      ChunksFrom(s, w, 0)
    else
      DivUnique(w - 1, w, 0);
      ChunksFrom(s, w, 0)
  }

  lemma {:induction false} ChunksFromConcat(s: string, w: nat, start: nat)
    requires w > 0
    ensures Join("", ChunksFrom(s, w, start)) == if start < |s| then s[start..] else ""
    decreases |s| - start
  {
    if start < |s| {
      var next := start + w;
      ChunksFromConcat(s, w, next);
      var head := Slice(s, start, next);
      JoinCons("", head, ChunksFrom(s, w, next));
      if next < |s| {
        assert head == s[start..next];
        assert s[start..next] + s[next..] == s[start..];
      } else {
        assert head == s[start..];
      }
    }
  }

  /** Gluing the rows back together gives the flat sequence again. */
  lemma ChunksConcat(s: string, w: nat)
    requires w > 0
    ensures Join("", Chunks(s, w)) == s
  {
    ChunksFromConcat(s, w, 0);
  }

  lemma {:induction false} ChunksFromBounds(s: string, w: nat, start: nat)
    requires w > 0
    ensures forall k :: 0 <= k < |ChunksFrom(s, w, start)| ==>
      1 <= |ChunksFrom(s, w, start)[k]| <= w
    decreases |s| - start
  {
    if start < |s| {
      ChunksFromBounds(s, w, start + w);
    }
  }

  /** No row is empty and no row is wider than `w`. */
  lemma ChunksBounds(s: string, w: nat)
    requires w > 0
    ensures forall k :: 0 <= k < |Chunks(s, w)| ==> 1 <= |Chunks(s, w)[k]| <= w
  {
    ChunksFromBounds(s, w, 0);
  }

  lemma {:induction false} ChunksFromExact(s: string, w: nat, start: nat, m: nat)
    requires w > 0 && start <= |s| && |s| - start == m * w
    ensures |ChunksFrom(s, w, start)| == m
    ensures forall k :: 0 <= k < m ==>
      ChunksFrom(s, w, start)[k] == Slice(s, start + k * w, start + k * w + w)
      && |ChunksFrom(s, w, start)[k]| == w
    decreases m
  {
    if m > 0 {
      var next := start + w;
      var rest := ChunksFrom(s, w, next);
      MulSucc(m - 1, w);
      ChunksFromExact(s, w, next, m - 1);
      var c := ChunksFrom(s, w, start);
      assert c == [Slice(s, start, next)] + rest;
      forall k | 0 <= k < m
        ensures c[k] == Slice(s, start + k * w, start + k * w + w) && |c[k]| == w
      {
        if k > 0 {
          MulSucc(k - 1, w);
          assert c[k] == rest[k - 1];
        }
      }
    }
  }

  /** When the length is `h * w`, there are exactly `h` rows, each of
      exactly `w` characters: row `k` is the slice `s[k*w : k*w + w]`. */
  lemma ChunksExact(s: string, w: nat, h: nat)
    requires w > 0 && |s| == h * w
    ensures |Chunks(s, w)| == h
    ensures forall k :: 0 <= k < h ==>
      Chunks(s, w)[k] == Slice(s, k * w, k * w + w) && |Chunks(s, w)[k]| == w
  {
    ChunksFromExact(s, w, 0, h);
  }

  /** Character `col` of row `row`, for a length of `h * w`, is character
      `row * w + col` of the flat sequence. */
  lemma RowChar(s: string, w: nat, h: nat, row: nat, col: nat)
    requires w > 0 && |s| == h * w && row < h && col < w
    ensures row * w + col < |s|
    ensures |Chunks(s, w)| == h && |Chunks(s, w)[row]| == w
    ensures Chunks(s, w)[row][col] == s[row * w + col]
  {
    ChunksExact(s, w, h);
    RowEnd(row, h, w);
  }

  lemma {:induction false} ChunksFromChars(s: string, w: nat, start: nat)
    requires w > 0
    ensures forall k, c :: 0 <= k < |ChunksFrom(s, w, start)| && c in ChunksFrom(s, w, start)[k] ==> c in s
    decreases |s| - start
  {
    if start < |s| {
      ChunksFromChars(s, w, start + w);
      var head := Slice(s, start, start + w);
      forall c | c in head ensures c in s {
        var i :| 0 <= i < |head| && head[i] == c;
        var b := if start + w < |s| then start + w else |s|;
        assert head == s[start..b];
        assert s[start + i] == c;
      }
    }
  }

  /** Rows hold only characters of the flat sequence. */
  lemma ChunksChars(s: string, w: nat)
    requires w > 0
    ensures forall k, c :: 0 <= k < |Chunks(s, w)| && c in Chunks(s, w)[k] ==> c in s
  {
    ChunksFromChars(s, w, 0);
  }

  /** When `w` divides the length, the rows are rectangular: `len(s) / w`
      rows of `w` characters each. */
  lemma ChunksRectangular(s: string, w: nat)
    requires w > 0 && |s| % w == 0
    ensures |Chunks(s, w)| == |s| / w
    ensures forall k :: 0 <= k < |Chunks(s, w)| ==> |Chunks(s, w)[k]| == w
  {
    ChunksExact(s, w, |s| / w);
  }

  // ---------------------------------------------------------------------
  // Resizing

  /** Python's `int(x)` of the fraction `a / b`: truncation toward zero. */
  function TruncDiv(a: int, b: int): (q: int)
    requires b > 0
    ensures 0 <= a ==> 0 <= q && q * b <= a < q * b + b
    ensures a < 0 ==> q <= 0 && q * b - b < a <= q * b
  {
    if a >= 0 then a / b else -((-a) / b)
  }

  /** `new_height = int(height / width * new_width * scale_factor)`, computed
      on exact fractions: the whole part of the exact height, with its
      fraction dropped toward zero. */
  function NewHeight(source: Size, newWidth: int, scale: Scale): (h: int)
    requires source.width > 0 && scale.den > 0
    ensures var num, den := source.height * newWidth * scale.num, source.width * scale.den;
      if num >= 0 then 0 <= h && h * den <= num < (h + 1) * den
      else h <= 0 && (h - 1) * den < num <= h * den
  {
    TruncDiv(source.height * newWidth * scale.num, source.width * scale.den)
  }

  /** The size `resize_image` asks the resampler for. It fails when the
      source width is 0 and when either target dimension is below 1;
      otherwise the width is exactly `newWidth`. */
  function ResizedSize(source: Size, newWidth: int, scale: Scale): (r: Result<Size>)
    requires scale.den > 0
    ensures r.Ok? <==> source.width > 0 && newWidth >= 1 && NewHeight(source, newWidth, scale) >= 1
    ensures r.Ok? ==> r.value == Size(newWidth, NewHeight(source, newWidth, scale))
  {
    if source.width == 0 then Err(ZeroDivision)
    else
      var newHeight := NewHeight(source, newWidth, scale);
      if newWidth < 1 || newHeight < 1 then Err(InvalidDimension)
      else Ok(Size(newWidth, newHeight))
  }

  /** At scale 1 the new height is the aspect ratio times the new width,
      rounded down. */
  lemma ResizeUnitScale(source: Size, newWidth: int, d: int)
    requires d > 0
    requires ResizedSize(source, newWidth, Scale(d, d)).Ok?
    ensures var size := ResizedSize(source, newWidth, Scale(d, d)).value;
      size.width == newWidth
      && size.height * source.width <= source.height * newWidth < (size.height + 1) * source.width
  {
    var w, h := source.width, source.height;
    var q := NewHeight(source, newWidth, Scale(d, d));
    assert h * newWidth * d == (h * newWidth) * d;
    assert w * d * q == (q * w) * d;
    assert q * w * d <= h * newWidth * d < q * w * d + w * d;
    CancelFactor(q * w, h * newWidth, d);
    CancelFactorStrict(h * newWidth, q * w + w, d);
  }

  lemma CancelFactor(a: int, b: int, d: int)
    requires d > 0 && a * d <= b * d
    ensures a <= b
  {
    assert (b - a) * d >= 0;
  }

  lemma CancelFactorStrict(a: int, b: int, d: int)
    requires d > 0 && a * d < b * d
    ensures a < b
  {
    assert (b - a) * d > 0;
  }

  /** A target height that rounds to 0 is refused: with width 1 and scale
      1/10000 this happens for every image less than 10000 times taller
      than wide. */
  lemma TinyScaleRefused(source: Size)
    requires source.width > 0 && source.height < 10000 * source.width
    ensures ResizedSize(source, 1, Scale(1, 10000)) == Err(InvalidDimension)
  {
    var q := NewHeight(source, 1, Scale(1, 10000));
    var b := source.width * 10000;
    assert 0 <= q && q * b <= source.height < b;
    CancelFactorStrict(q, 1, b);
  }

  // ---------------------------------------------------------------------
  // The whole of stage one

  /** The text `image_to_ascii` builds from a resized image: the rows of
      the quantized pixels, `width` characters each, joined with newlines. */
  function AsciiGrid(image: GrayImage, palette: string): (r: string)
    requires |palette| >= 1 && image.width > 0
    ensures forall i :: 0 <= i < |r| ==> r[i] in palette + "\n"
  {
    var q := Quantize(image.pixels, palette);
    var rows := Chunks(q, image.width);
    ChunksChars(q, image.width);
    assert forall i :: 0 <= i < |q| ==> q[i] in palette;
    assert forall c :: c in q ==> c in palette + "\n";
    JoinWithin("\n", rows, palette + "\n");
    Join("\n", rows)
  }

  /** `image_to_ascii`. `decoded` is what opening the file and converting it
      to "L" produced; `resampled` is the grey values, in row-major order,
      that the resampler delivers for the size `ResizedSize` computes. A
      decoding error passes through, a refused resize gives its error, and
      otherwise the result is the grid of the resized image. */
  function ImageToAscii(decoded: Result<Size>, newWidth: int, scale: Scale,
                        resampled: seq<Byte>, palette: string): (r: Result<string>)
    requires scale.den > 0 && |palette| >= 1
    ensures r.Ok? <==> decoded.Ok? && ResizedSize(decoded.value, newWidth, scale).Ok?
    ensures decoded.Err? ==> r == Err(decoded.error)
    ensures decoded.Ok? && ResizedSize(decoded.value, newWidth, scale).Err? ==>
      r == Err(ResizedSize(decoded.value, newWidth, scale).error)
    ensures r.Ok? ==>
      r.value == AsciiGrid(GrayImage(newWidth, NewHeight(decoded.value, newWidth, scale), resampled), palette)
  {
    match decoded
    case Err(e) => Err(e)
    case Ok(source) =>
      match ResizedSize(source, newWidth, scale)
      case Err(e) => Err(e)
      case Ok(size) => Ok(AsciiGrid(GrayImage(size.width, size.height, resampled), palette))
  }
}

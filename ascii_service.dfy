/**
 * The conversion from a resized pixel grid to an ASCII-art artifact
 * (src/services/ascii_service.rs): per-pixel brightness, the brightness-to-glyph
 * rule, the row-major walk over the grid, and the assembly of the rows into
 * one text handed to the artifact constructor.
 */
module AsciiConversion {
  import opened Lines
  import opened AsciiArtModel

  type byte = x: int | 0 <= x < 256

  /** One pixel as read from the image: red, green, blue and alpha channels. */
  datatype Pixel = Pixel(r: byte, g: byte, b: byte, a: byte)

  /**
   * A decoded image: `width` columns, `height` rows, pixel (x, y) stored at
   * pixels[y][x]. Both dimensions are 32-bit unsigned values.
   */
  datatype Image = Image(width: nat, height: nat, pixels: seq<seq<Pixel>>)
  {
    predicate Valid() {
      width < U32Limit && height < U32Limit &&
      |pixels| == height &&
      forall y :: 0 <= y < height ==> |pixels[y]| == width
    }

    function At(x: nat, y: nat): Pixel
      requires Valid() && x < width && y < height
    {
      pixels[y][x]
    }
  }

  const U32Limit: nat := 0x1_0000_0000
  const USizeLimit: nat := 0x1_0000_0000_0000_0000

  /** The palette, densest glyph first and lightest last. */
  const Palette: seq<char> := ['@', '%', '#', '*', '+', '=', '-', ':', '.', ' ']

  /** The column budget images are resized to. */
  const MaxWidth: nat := 100

  /**
   * Brightness is kept exact, in thousandths: 299 R + 587 G + 114 B is one
   * thousand times the weighted luma 0.299 R + 0.587 G + 0.114 B.
   */
  const MaxBrightness: nat := 255_000

  /** The luma of a pixel (alpha is ignored), scaled by one thousand. */
  function CalculateBrightness(p: Pixel): (brightness: nat)
    ensures brightness <= MaxBrightness
    ensures p.r == 255 && p.g == 255 && p.b == 255 ==> brightness == MaxBrightness
    ensures p.r == 0 && p.g == 0 && p.b == 0 ==> brightness == 0
  {
    299 * p.r + 587 * p.g + 114 * p.b
  }

  /**
   * The palette position for a brightness: brightness / 255 scaled to the
   * last index of a palette of `n` glyphs, truncated toward zero.
   */
  function GlyphIndex(brightness: nat, n: nat): (i: nat)
    requires brightness <= MaxBrightness && n >= 1
    ensures i < n
    ensures brightness == 0 ==> i == 0
    ensures brightness == MaxBrightness ==> i == n - 1
  {
    IndexBound(brightness, n - 1);
    brightness * (n - 1) / MaxBrightness
  }

  lemma IndexBound(brightness: nat, k: nat)
    requires brightness <= MaxBrightness
    ensures brightness * k <= MaxBrightness * k
    ensures brightness * k / MaxBrightness <= k
    ensures MaxBrightness * k / MaxBrightness == k
  {
  }

  /** A brighter pixel never gets a smaller palette index, i.e. never a denser glyph. */
  lemma {:induction false} GlyphIndexMonotone(b1: nat, b2: nat, n: nat)
    requires b1 <= b2 <= MaxBrightness && n >= 1
    ensures GlyphIndex(b1, n) <= GlyphIndex(b2, n)
  {
    MulMonotone(b1, b2, n - 1);
    DivMonotone(b1 * (n - 1), b2 * (n - 1), MaxBrightness);
  }

  lemma DivMonotone(x: nat, y: nat, d: nat)
    requires x <= y && d > 0
    ensures x / d <= y / d
  {
    if x / d > y / d {
      MulMonotone(y / d + 1, x / d, d);
      assert false;
    }
  }

  /** The position of a pixel's glyph in the palette, which runs from densest to lightest. */
  function Density(p: Pixel): (i: nat)
    ensures i < |Palette|
    ensures CalculateBrightness(p) == 0 ==> i == 0
    ensures CalculateBrightness(p) == MaxBrightness ==> i == |Palette| - 1
  {
    GlyphIndex(CalculateBrightness(p), |Palette|)
  }

  /** The glyph a pixel is drawn with: the darkest glyph for black, a space for white. */
  function Glyph(p: Pixel): (c: char)
    ensures c in Palette && c != Newline
    ensures CalculateBrightness(p) == 0 ==> c == '@'
    ensures CalculateBrightness(p) == MaxBrightness ==> c == ' '
  {
    Palette[Density(p)]
  }

  /** No two palette positions hold the same glyph, so a glyph determines its position. */
  lemma PaletteIsInjective(i: nat, j: nat)
    requires i < |Palette| && j < |Palette| && Palette[i] == Palette[j]
    ensures i == j
  {
  }

  /**
   * A pixel at least as bright as another is drawn at the same or a later
   * (lighter) palette position; in particular one that is no darker in any
   * channel never gets a denser glyph.
   */
  lemma {:induction false} BrighterPixelNeverDenser(p: Pixel, q: Pixel)
    requires CalculateBrightness(p) <= CalculateBrightness(q)
    ensures Density(p) <= Density(q)
  {
    GlyphIndexMonotone(CalculateBrightness(p), CalculateBrightness(q), |Palette|);
  }

  lemma {:induction false} ChannelwiseBrighterNeverDenser(p: Pixel, q: Pixel)
    requires p.r <= q.r && p.g <= q.g && p.b <= q.b
    ensures Density(p) <= Density(q)
  {
    BrighterPixelNeverDenser(p, q);
  }

  /** The alpha channel plays no part in the glyph. */
  lemma AlphaIgnored(p: Pixel, alpha: byte)
    ensures Glyph(p.(a := alpha)) == Glyph(p)
  {
  }

  class AsciiService {
    const charset: seq<char>
    const maxWidth: nat

    /** The service is always configured with the fixed palette and column budget. */
    predicate Valid() {
      charset == Palette && maxWidth == MaxWidth
    }

    constructor ()
      ensures Valid()
    {
      charset := Palette;
      maxWidth := MaxWidth;
    }

    /**
     * Walks the grid top to bottom, left to right, and produces one row of
     * glyphs per pixel row: row y, column x holds the glyph of pixel (x, y).
     */
    method MapPixelsToAscii(image: Image) returns (ascii: seq<seq<char>>)
      requires Valid() && image.Valid()
      ensures |ascii| == image.height
      ensures forall y :: 0 <= y < |ascii| ==> |ascii[y]| == image.width
      ensures forall y, x :: 0 <= y < |ascii| && 0 <= x < image.width ==>
        ascii[y][x] == Glyph(image.At(x, y)) && ascii[y][x] in charset
    {
      var width, height := image.width, image.height;
      ascii := [];
      for y := 0 to height
        invariant |ascii| == y
        invariant forall j :: 0 <= j < y ==> |ascii[j]| == width
        invariant forall j, x :: 0 <= j < y && 0 <= x < width ==> ascii[j][x] == Glyph(image.At(x, j))
      {
        var row: seq<char> := [];
        for x := 0 to width
          invariant |row| == x
          invariant forall i :: 0 <= i < x ==> row[i] == Glyph(image.At(i, y))
        {
          var pixel := image.At(x, y);
          var brightness := CalculateBrightness(pixel);
          var charIdx := brightness * (|charset| - 1) / MaxBrightness;
          row := row + [charset[charIdx]];
        }
        ascii := ascii + [row];
      }
    }

    /** The rows joined with line breaks, without a trailing line break. */
    function FormatOutput(ascii: seq<seq<char>>): (s: string)
      ensures |ascii| == 0 ==> s == ""
      ensures |ascii| >= 1 ==> |s| == TotalLength(ascii) + |ascii| - 1
      ensures |ascii| >= 1 && NoNewlines(ascii) ==> NewlineCount(s) == |ascii| - 1
      ensures |ascii| >= 1 && NoNewlines(ascii) ==> Split(s) == ascii
      ensures |ascii| >= 1 && ascii[|ascii| - 1] != [] && NoNewlines(ascii) ==> s[|s| - 1] != Newline
    {
      if |ascii| == 0 then "" else
        JoinLength(ascii);
        JoinEndsWithLastRow(ascii);
        if NoNewlines(ascii) then
          JoinNewlineCount(ascii);
          SplitJoin(ascii);
          Join(ascii)
        else
          Join(ascii)
    }

    /**
     * Converts an already resized image: maps its pixels to glyphs, formats
     * the rows and hands the text and the grid's dimensions to the artifact
     * constructor, whose error is returned unchanged.
     */
    method ImageToAscii(processed: Image) returns (r: Result<AsciiArt>)
      requires Valid() && processed.Valid()
      ensures r.Err? <==> processed.width == 0 || processed.height == 0
      ensures r.Err? ==> r.error == InvalidDimensions
      ensures r.Ok? ==> r.value.Valid()
      ensures r.Ok? ==> r.value.width == processed.width && r.value.height == processed.height
      ensures r.Ok? ==> Renders(r.value.content, processed)
      ensures r.Ok? ==> |r.value.content| - NewlineCount(r.value.content) == r.value.charCount
      ensures r.Ok? ==> r.value.content[|r.value.content| - 1] != Newline
      ensures r.Ok? ==> r.value.charCount < USizeLimit
    {
      var asciiVec := MapPixelsToAscii(processed);
      var content := FormatOutput(asciiVec);
      r := New(content, processed.width, processed.height);
      if r.Ok? {
        NoGlyphIsNewline(asciiVec, processed);
        TotalLengthOfGrid(asciiVec, processed.width);
        U32ProductFitsUSize(processed.width, processed.height);
      }
    }
  }

  /**
   * `content` is the rendering of `image`: its lines are the image's rows and
   * each character is the glyph of the pixel at that position.
   */
  ghost predicate Renders(content: string, image: Image)
    requires image.Valid()
  {
    var lines := Split(content);
    |lines| == image.height &&
    (forall y :: 0 <= y < image.height ==> |lines[y]| == image.width) &&
    (forall y, x :: 0 <= y < image.height && 0 <= x < image.width ==> lines[y][x] == Glyph(image.At(x, y)))
  }

  lemma NoGlyphIsNewline(ascii: seq<seq<char>>, image: Image)
    requires image.Valid()
    requires |ascii| == image.height
    requires forall y :: 0 <= y < |ascii| ==> |ascii[y]| == image.width
    requires forall y, x :: 0 <= y < |ascii| && 0 <= x < image.width ==> ascii[y][x] == Glyph(image.At(x, y))
    ensures NoNewlines(ascii)
  {
    assert Newline !in Palette;
  }

  lemma U32ProductFitsUSize(width: nat, height: nat)
    requires width < U32Limit && height < U32Limit
    ensures width * height < USizeLimit
  {
    var m := U32Limit - 1;
    MulMonotone(height, m, width);
    MulMonotone(width, m, m);
    assert m * m < USizeLimit;
  }

  lemma MulMonotone(a: nat, b: nat, c: nat)
    requires a <= b
    ensures c * a <= c * b && a * c <= b * c
  {
  }

  /**
   * The rendering of an image is determined by the image: two texts that both
   * render it are the same text, so converting an image twice gives identical content.
   */
  lemma {:induction false} RenderingIsUnique(c1: string, c2: string, image: Image)
    requires image.Valid() && Renders(c1, image) && Renders(c2, image)
    ensures c1 == c2
  {
    var l1, l2 := Split(c1), Split(c2);
    forall y | 0 <= y < |l1| ensures l1[y] == l2[y] {
      assert |l1[y]| == |l2[y]| == image.width;
    }
    assert l1 == l2;
    JoinSplit(c1);
    JoinSplit(c2);
  }

  /** Every pixel of the image is white. */
  predicate AllWhite(image: Image)
    requires image.Valid()
  {
    forall y, x :: 0 <= y < image.height && 0 <= x < image.width ==>
      image.At(x, y).r == 255 && image.At(x, y).g == 255 && image.At(x, y).b == 255
  }

  /** A solid white image is rendered as lines of spaces only. */
  lemma {:induction false} WhiteImageRendersSpaces(content: string, image: Image)
    requires image.Valid() && AllWhite(image) && Renders(content, image)
    ensures forall y :: 0 <= y < image.height ==> Split(content)[y] == seq(image.width, _ => ' ')
  {
    var lines := Split(content);
    forall y | 0 <= y < image.height ensures lines[y] == seq(image.width, _ => ' ') {
      forall x | 0 <= x < image.width ensures lines[y][x] == ' ' {
        assert CalculateBrightness(image.At(x, y)) == MaxBrightness;
      }
    }
  }
}

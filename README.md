# ASCII-art conversion: a verified Dafny model

This project models the core of a small web service that turns an uploaded
image into ASCII art. It covers the tail of the conversion pipeline and the
artifact it produces.

- The artifact (`AsciiArtModel`, file `ascii_art.dfy`) holds the rendered
  text, the width and height of the pixel grid it came from, and a derived
  character count. Its constructor `New` rejects a grid with no cells and
  otherwise records `charCount = width * height`.
- The conversion service (`AsciiConversion`, file `ascii_service.dfy`) is a
  class whose two constant fields, the 10-glyph palette `@%#*+=-:. ` and the
  column budget 100, are set once by its constructor. `MapPixelsToAscii` walks
  a resized pixel grid row by row. For each pixel it computes the luma
  0.299 R + 0.587 G + 0.114 B and picks the palette entry at index
  `brightness / 255 * 9`, truncated. `FormatOutput` joins the rows with line
  breaks. `ImageToAscii` passes the text and the grid's dimensions to the
  artifact constructor and returns its error unchanged.
- Joining with `"\n"` and its inverse, splitting on `'\n'`, live in `Lines`
  (file `lines.dfy`). `Split` is not part of the service. It is the reference
  against which the layout of the rendered text is stated: splitting
  the content gives back exactly the glyph grid.

Brightness is kept exact, scaled by one thousand: `299 R + 587 G + 114 B`,
from 0 to 255000. The glyph index `b * (n - 1) / 255000` is then exactly the
truncation of `(luma / 255) * (n - 1)` computed on real numbers.

Two points where the code and its design description differ; the model follows the code.
- The design describes an in-memory artifact store keyed by random identifiers. The code has none:
  the download handler echoes its `ascii` query parameter back. No store is modelled.
- The design says the glyph index is clamped to the palette. The code does not clamp.
  `GlyphIndex` proves the clamp unnecessary in exact arithmetic.

## Model

| member | source | states |
|---|---|---|
| `AsciiArtModel.New` | src/models/ascii_art.rs:24-37 | fails with `InvalidDimensions` exactly when `width * height == 0`, i.e. exactly when a dimension is 0; on success the content, width and height are stored unchanged and `charCount == width * height > 0` (the artifact invariant `Valid`) |
| `AsciiArtModel.ContentNeverInspected` | src/models/ascii_art.rs:24-36 | success and the character count do not depend on the content: any text is accepted when both dimensions are positive |
| `AsciiConversion.AsciiService.constructor` | src/services/ascii_service.rs:20-25 | the service holds the fixed palette `@%#*+=-:. ` and the column budget 100 |
| `AsciiConversion.CalculateBrightness` | src/services/ascii_service.rs:69-73 | the weighted luma (scaled by 1000) lies in [0, 255000], is 0 for black and the maximum for white |
| `AsciiConversion.GlyphIndex` | src/services/ascii_service.rs:59 | for any brightness in range and a non-empty palette of n glyphs the index lies in [0, n-1], so the palette lookup never goes out of bounds; brightness 0 gives index 0 and full brightness the last index |
| `AsciiConversion.GlyphIndexMonotone` | src/services/ascii_service.rs:59 | the index never decreases as brightness grows |
| `AsciiConversion.Density` | src/services/ascii_service.rs:58-59 | a pixel's palette position is in range; black gives position 0, white the last position |
| `AsciiConversion.Glyph` | src/services/ascii_service.rs:57-60 | a pixel's glyph is a palette member and never a line break; black gives `'@'`, white gives `' '` |
| `AsciiConversion.PaletteIsInjective` | src/services/ascii_service.rs:22 | the palette's glyphs are pairwise distinct, so a glyph determines its density |
| `AsciiConversion.BrighterPixelNeverDenser` | src/services/ascii_service.rs:58-60 | a pixel at least as bright as another never gets a denser (earlier) glyph |
| `AsciiConversion.ChannelwiseBrighterNeverDenser` | src/services/ascii_service.rs:69-73 | a pixel no darker in any of R, G, B never gets a denser glyph |
| `AsciiConversion.AlphaIgnored` | src/services/ascii_service.rs:69-73 | changing the alpha channel never changes the glyph |
| `AsciiConversion.AsciiService.MapPixelsToAscii` | src/services/ascii_service.rs:50-66 | the result has exactly `height` rows of exactly `width` characters; row y, column x is the glyph of pixel (x, y) and a member of the charset |
| `AsciiConversion.AsciiService.FormatOutput` | src/services/ascii_service.rs:76-81 | zero rows give the empty text; for r >= 1 rows the length is the sum of the row lengths plus r - 1; for newline-free rows there are exactly r - 1 line breaks, splitting on line breaks gives the rows back, and a non-empty last row means no trailing line break |
| `AsciiConversion.AsciiService.ImageToAscii` | src/services/ascii_service.rs:28-38 | fails with the constructor's `InvalidDimensions` exactly when the grid has zero width or height; otherwise the artifact is valid, has the grid's width and height, its content splits into the glyph grid of the image, its non-line-break characters number `charCount`, it does not end in a line break, and `charCount` fits in a 64-bit `usize` |
| `AsciiConversion.U32ProductFitsUSize` | src/services/ascii_service.rs:33-37 | two 32-bit dimensions multiply to less than 2^64, so `width * height` in the constructor cannot overflow when called from the conversion |
| `AsciiConversion.RenderingIsUnique` | src/services/ascii_service.rs:28-38 | two texts that both render an image are equal: conversion is deterministic, and converting the same image twice gives identical content |
| `AsciiConversion.WhiteImageRendersSpaces` | src/services/ascii_service.rs:50-66 | a solid white image renders as lines consisting only of spaces |
| `AsciiConversion.NoGlyphIsNewline` | src/services/ascii_service.rs:22 | a glyph grid never contains a line break, because no palette entry is one |
| `Lines.SplitJoin` | src/services/ascii_service.rs:76-81 | splitting the joined text on `'\n'` gives back the rows, for one or more newline-free rows |
| `Lines.JoinSplit` | src/services/ascii_service.rs:76-81 | joining the lines of any text with `"\n"` gives the text back |
| `Lines.JoinLength` | src/services/ascii_service.rs:76-81 | the joined text is as long as all rows plus one separator between each pair |
| `Lines.JoinNewlineCount` | src/services/ascii_service.rs:76-81 | joining r >= 1 newline-free rows yields exactly r - 1 line breaks |
| `Lines.JoinEndsWithLastRow` | src/services/ascii_service.rs:76-81 | the joined text ends with the last row: no separator is appended after it |
| `Lines.SplitLine` | src/services/ascii_service.rs:76-81 | a text without line breaks is a single line |
| `Lines.SplitLineThenRest` | src/services/ascii_service.rs:76-81 | a newline-free row, a line break and a rest split into that row followed by the lines of the rest |
| `Lines.TotalLengthOfGrid` | src/models/ascii_art.rs:34 | rows that each hold `width` characters hold the number of rows times `width` characters together, which is the `char_count` the constructor records |

## Left out

- Image decoding (`image::load_from_memory`) and resizing (`resize` with a Lanczos3 filter) are calls into an image library. `ImageToAscii` therefore takes the already resized grid as its input, in place of the private resize step.
- The target size computation before resizing uses 32-bit floating point and an `as u32` cast, so it is not modelled. This means the column budget (`maxWidth`) is stored but not used by the model.
- AsciiConversion.GlyphIndex: it and `CalculateBrightness` use exact arithmetic in place of the source's 32-bit floating point. A brightness that falls within rounding error of a bucket boundary may get the neighbouring glyph in the source. The model does not capture this.
- AsciiArtModel.New: takes unbounded natural numbers for `usize` arguments. An overflow of `width * height` is not modelled; in the source it panics in debug builds and wraps in release builds. `U32ProductFitsUSize` shows that the overflow cannot happen when the constructor is called from the conversion.
- The HTTP routes, templating, static files, server start-up and the CPU-metrics page are outside this model. The download handler only echoes its query parameter back, so it has no logic worth modelling.
- Error values carry only their kind (`InvalidDimensions`). The text of the error message is not modelled.

/**
 * The ASCII-art artifact: the rendered text together with the dimensions of
 * the pixel grid it was rendered from (src/models/ascii_art.rs).
 */
module AsciiArtModel {

  /** The only failure the constructor reports ("Invalid dimensions"). */
  datatype Error = InvalidDimensions

  datatype Result<T> = Ok(value: T) | Err(error: Error)

  /**
   * A validated artifact. `charCount` is derived from the dimensions and is
   * never supplied by the caller.
   */
  datatype AsciiArt = AsciiArt(content: string, width: nat, height: nat, charCount: nat)
  {
    /** What every artifact built by `New` satisfies. */
    predicate Valid() {
      width > 0 && height > 0 && charCount == width * height
    }
  }

  /**
   * The validating constructor: rejects an empty grid, otherwise stores the
   * arguments unchanged and records the number of grid cells.
   */
  function New(content: string, width: nat, height: nat): (r: Result<AsciiArt>)
    ensures r.Err? <==> width * height == 0
    ensures r.Err? <==> width == 0 || height == 0
    ensures r.Err? ==> r.error == InvalidDimensions
    ensures r.Ok? ==> r.value.Valid()
    ensures r.Ok? ==> r.value.content == content && r.value.width == width && r.value.height == height
    ensures r.Ok? ==> r.value.charCount > 0
  {
    if width * height == 0 then
      Err(InvalidDimensions)
    else
      Ok(AsciiArt(content, width, height, width * height))
  }

  /** The content is never inspected: only the dimensions decide success. */
  lemma ContentNeverInspected(c1: string, c2: string, width: nat, height: nat)
    ensures New(c1, width, height).Ok? == New(c2, width, height).Ok?
    ensures New(c1, width, height).Ok? ==>
      New(c1, width, height).value.charCount == New(c2, width, height).value.charCount
  {
  }
}

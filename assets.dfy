/** The values the asset encoder works on: RGBA pixels, named images and the
    outcome of a run, where every way the run can abort is a `Failure`. */
module Assets {

  /** An unsigned 8-bit value (Rust's `u8`). */
  type Byte = x: nat | x < 256

  /** One RGBA colour with four 8-bit channels; equal iff all four channels match. */
  datatype Pixel = Pixel(r: Byte, g: Byte, b: Byte, a: Byte)

  /** A decoded image: the stem of its file name and its pixels in row-major order. */
  datatype Image = Image(name: string, pixels: seq<Pixel>)

  /** The reasons a run stops without producing output. */
  datatype Failure =
    | NoImages        // the `ensure!` that rejects an empty image list
    | DivideByZero    // `8 / bits_per_colour` with a palette of at most one colour
    | ZeroChunkSize   // `chunks(0)` when more than 8 bits per colour are needed
    | ShiftOverflow   // `0u8 << 8` in a debug build when exactly 8 bits are needed
    | MissingColour   // the `expect` on a palette lookup that found nothing

  datatype Result<T> = Ok(value: T) | Err(failure: Failure)

  datatype Option<T> = None | Some(value: T)
}

/** Failure-compatible result types and the decoder's error taxonomy. */
module Wrappers {

  /** Every way a decode can stop. Some are error returns in the original
      (a failed stream read or seek); the others are process aborts there
      (VERIFY, TODO, a Variant read as the wrong alternative, an index out of
      range), surfaced here as values. */
  datatype Error =
    | Truncated             // read_value hit the end of the buffer
    | SeekOutOfRange        // seek outside [0, size]
    | BadMagic              // header is not 01 'f' 'c' 'p'
    | InvalidTableCount     // table_count <= 0
    | UnsupportedBitOrder   // format bit 3 clear in read<T>
    | NegativePropertyCount // nprops < 0
    | InvalidMetricsCount   // metrics_count <= 0
    | AllocationFailure     // a negative count or size converted to size_t
    | GlyphCountMismatch    // |metrics| != bitmap glyph_count
    | OutOfBounds           // an unchecked index in the rasteriser
    | WrongPropertyType     // property holds the other alternative
    | IndexOutOfRange       // glyph index past the converted glyphs
    | Unimplemented         // a TODO() path of the original

  datatype Option<+T> = None | Some(value: T)

  datatype Result<+T> = Ok(value: T) | Err(error: Error) {
    predicate IsFailure() { Err? }

    function PropagateFailure<U>(): Result<U>
      requires Err?
    {
      Err(error)
    }

    function Extract(): T
      requires Ok?
    {
      value
    }
  }
}

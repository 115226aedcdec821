/** Outcomes of the decompressors. */
module Outcomes {

  /** A payload that is not well formed, or one that exceeds a decompression limit. */
  datatype Error = Malformed | LimitExceeded

  datatype Result<+T> = Ok(value: T) | Err(error: Error)
}

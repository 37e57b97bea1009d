/** Outcomes of calls into code that the model does not see: image and OCR
    libraries, the hash function, the chat backend. */
module Calls {

  /** A value that may be absent, as Python's `None`. */
  datatype Option<+T> = None | Some(value: T)

  /** What a call into a library does: it returns a value, or it raises an
      exception whose `str(e)` is `message`. */
  datatype Call<+T> = Returned(value: T) | Raised(message: string)
}

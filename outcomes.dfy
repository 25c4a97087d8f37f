/** Optional values and the two exceptions the Huffman pipeline can raise. */
module Outcomes {

  /** A value that may be absent, standing for Python's `None`. */
  datatype Option<+T> = None | Some(value: T)

  /** The exceptions of the pipeline: `list.pop(0)` on an empty list raises
      IndexError, and `self.codes[character]` on a character without a code
      raises KeyError. */
  datatype Error = IndexError | KeyError(key: char)

  /** The value a call returns, or the exception it raises. */
  datatype Result<+T> = Ok(value: T) | Err(error: Error)
}

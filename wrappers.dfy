/** Small result types shared by the model of the trie. */
module Wrappers {

  /** An optional value. In a node's value slot `None` stands for the non-terminal sentinel. */
  datatype Option<T> = None | Some(value: T)

  /** The outcome of an operation that raises `KeyError` in the source; the error carries the key. */
  datatype Result<T> = Ok(value: T) | KeyError(key: string)
}

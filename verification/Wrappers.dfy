/** The optional value and the content hash used throughout the model. */
module Wrappers {
  datatype Option<+T> = None | Some(value: T)

  /** A content hash; two contents have the same hash only when they are equal. */
  datatype Digest = Digest(of: string)
}

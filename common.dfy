/** Small datatypes shared by the word-search and puzzle games. */
module Common {

  /** A value that may be absent (the `null` / `undefined` of the source). */
  datatype Option<+T> = None | Some(value: T)

  /** Difficulty label attached to every word of both games. */
  datatype Difficulty = Easy | Medium | Hard
}

/**
 * A value that may be absent: `undefined` in the JavaScript the model
 * follows, or a checker answer that may be missing.
 */
module Options {
  datatype Option<+T> = None | Some(value: T)
}

/** The optional value used wherever the pipeline's Rust code returns `Option`. */
module Wrappers {
  datatype Option<+T> = None | Some(value: T)
}

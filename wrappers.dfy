/** The nullable-pointer idiom of the C sources: `None` stands for NULL. */
module Wrappers {
  datatype Option<+T> = None | Some(value: T)
}

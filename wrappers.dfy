/** The absent-or-present result shared by the decoder and the encoder. */
module Wrappers {

  /** std::optional<T>: None is std::nullopt. */
  datatype Option<+T> = None | Some(value: T)
}

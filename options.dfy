/** The present/absent results of the library's checked operations. */
module Options {

  /** `std::optional`: `None` is the absent result. */
  datatype Option<+T> = None | Some(value: T)

  /** The two ways a constructor that may throw inside `noexcept` can end. */
  datatype Outcome<+T> = Built(value: T) | Terminated
}

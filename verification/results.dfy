/** Failure-carrying wrappers shared by the whole model. */
module Results {

  /** An optional value: Rust's `Option`. */
  datatype Option<+T> = None | Some(value: T)

  /** A value or an error: Rust's `Result`, and also the outcome of a run that may panic. */
  datatype Result<+R, +E> = Success(value: R) | Failure(error: E)
}

/** The ways a run of tablex stops before it has printed everything it would print. */
module Errors {

  datatype Error =
    /** Neither `XDG_CONFIG_HOME` nor `HOME` is set (a panic in `get_config_path`). */
    | NoHomeVariable
    /** The configuration file could not be read or did not deserialise (an `Err`). */
    | ConfigUnreadable(path: string)
    /** A view name that the configuration does not define (a panic). */
    | NoSuchView(name: string)
    /** An input file that could not be read (an `Err`). */
    | FileUnreadable(path: string)
    /** A regular expression the engine refuses (a panic). */
    | RegexDoesNotCompile(regex: string)
  {
    /** True for the failures the program reports by panicking rather than by returning `Err`. */
    predicate IsPanic() {
      NoHomeVariable? || NoSuchView? || RegexDoesNotCompile?
    }
  }
}

/** Failure-carrying values shared by the parsers: an Option, a Result, the
    program's `SiaError` variants that the modelled code produces, and an
    Outcome that also records a Rust panic (an `unwrap` of nothing, or a
    string slice off a character boundary). */
module Outcomes {

  datatype Option<+T> = None | Some(value: T)

  datatype Result<+T, +E> = Success(value: T) | Failure(error: E)

  /** The variants of `SiaError` (src/main.rs) that the modelled parsers can
      return. The others belong to I/O, images, fonts and subprocesses. */
  datatype SiaError =
    | InvalidConfig(what: string)
    | Parse(message: string)
    | Message(text: string)

  /** What a call of the modelled Rust code does: return `Ok`, return `Err`,
      or panic. */
  datatype Outcome<+T> = Ok(value: T) | Err(error: SiaError) | Panic {

    predicate IsFailure() {
      !Ok?
    }

    function PropagateFailure<U>(): Outcome<U>
      requires !Ok?
    {
      if Err? then Err(error) else Panic
    }

    function Extract(): T
      requires Ok?
    {
      value
    }
  }
}

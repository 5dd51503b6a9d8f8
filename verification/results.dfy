/** Option and Result types shared by every module, and the errors the library
    raises.  A JavaScript `throw` becomes an `Err` value carrying one of the
    `Error` constructors below. */
module Results {

  datatype Option<+T> = None | Some(value: T)

  datatype Error =
    | MissingWord              // TypeError: a `uniform` line has too few words to read a name from
    | ReservedName             // "Uniform name output is reserved"
    | InvalidUniformName       // "Invalid uniform name"
    | TypeMismatch             // the value does not fit the parameter's declared type
    | InvalidArguments         // `output` given something that is neither "canvas" nor a texture
    | SizeNotSet               // "Width and/or height not set"
    | InvalidTarget            // `run` given a target that is neither "canvas" nor an initialized texture
    | NotEnoughData            // "Not enough data"
    | NotInitialized           // "Texture in not initialized"
    | BadCallShape             // `downloadData` given an unusable first argument
    | Unassigned(name: string) // "Uniform <name> has not been assigned a value"
    | NotAFramebuffer          // TypeError: `bindFramebuffer` given something that is not a framebuffer

  datatype Result<+T> = Ok(value: T) | Err(error: Error) {

    predicate IsFailure() {
      Err?
    }

    function PropagateFailure<U>(): Result<U>
      requires Err?
    {
      Err(error)
    }

    function Extract(): T
      requires Ok?
    {
      value
    }
  }
}

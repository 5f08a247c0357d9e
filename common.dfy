/** Result and error types shared by the whole model. Every failure of the
    generator (a Go `error` return or a `panic`) becomes an `Err`. */
module Common {

  /** Why a step of the generator failed. */
  datatype Error =
    | ReadFailed(path: string)     // the file or directory could not be read
    | Panic(reason: string)        // a Go runtime panic (slice out of range, ...)
    | NoTemplate(start: string)    // the ancestor search reached the top without a template
    | EngineFailed(reason: string) // the template engine failed to parse or execute

  datatype Result<T> = Ok(value: T) | Err(error: Error)

  datatype Option<T> = None | Some(value: T)
}

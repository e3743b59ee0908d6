/** The two shapes every fallible step of the system returns: a value or the
    message of the error the JavaScript code would throw. */
module Results {

  datatype Option<T> = None | Some(value: T)

  datatype Result<T> = Ok(value: T) | Err(message: string)
}

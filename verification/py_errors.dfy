/**
 The two ways the modelled code can fail on its own (as opposed to failures of
 the remote services it calls): both surface in Python as `ValueError`.
 */
module PyErrors {

  /** The value a Python expression produces, or the `ValueError` it raises. */
  datatype Result<+T> = Ok(value: T) | ValueError(message: string)
}

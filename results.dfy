/** Outcomes of operations that can raise: the Python exception kinds the core can raise. */
module Results {

  /** The exception classes raised by the modelled code: a missing dict key (KeyError),
      an index outside an array (IndexError), or a bad argument (ValueError). */
  datatype Error = KeyError | IndexError | ValueError

  datatype Result<T> = Ok(value: T) | Err(error: Error)

  datatype Option<T> = None | Some(value: T)
}

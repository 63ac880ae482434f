/** Outcomes of the store's operations that can fail. */
module Results {

  /** The ways an operation of the store can fail. */
  datatype Error =
    | ReadPastEnd   // a record read would run past the end of the data file
    | OutOfRange    // `vector::at` was given an index beyond the index vector (std::out_of_range)
    | NotFound      // no row carries the requested _id

  datatype Result<T> = Ok(value: T) | Err(error: Error)

  datatype Option<T> = None | Some(value: T)
}

/** Outcome types shared by the whole model. */
module Results {
  datatype Option<+T> = None | Some(value: T)

  /** `Err` stands for the exception the program raises at that point. */
  datatype Result<+T, +E> = Ok(value: T) | Err(error: E)
}

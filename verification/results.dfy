/** Option and Result values shared by the tokenizer and the value parser. */
module Results {

  datatype Option<+T> = None | Some(value: T)

  /** `Err` carries what went wrong: an input offset for the tokenizer, a
      `ParseError` for the whole parse. */
  datatype Result<+T, +E> = Ok(value: T) | Err(error: E)
}
